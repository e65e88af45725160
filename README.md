# Optimistic transactional memory of the subnet VM, in Dafny

This project models the Block-STM-style transactional memory of the subnet VM. It also models the transaction bodies that run on top of that memory.

- **Store (`SVMMemory`).** Byte-vector keys map to `SVMObject { value, version }`.
- **Transaction.** Holds a private read set (key to the value and version it saw) and a private write set (key to the value it will write).
  - `read` returns the transaction's own buffered write if there is one. Otherwise it returns the stored value, which then replaces any earlier read-set entry for that key. A missing key reads as nothing and records nothing.
  - `write` buffers a value.
  - `commit` first checks every read-set key that is still in the store against the version that was read. If all match, it writes each buffered value at the key's *current* version + 1.
- **`get_val`.** A read-only lookup, run as one transaction.
- **`process_tx`.** Reads the transaction's objects in order, passes them and the transaction's arguments to the code executor, and writes the tuple it gets back onto the objects by position.
- **`alloc`.** One write-only transaction per account `0x{i}`, a <= i <= b, setting it to `U24(0)`.
- **`reverse_transfer`.** Builds one transfer per pair a <= j < i <= b. Each transfer is named by the id `(i << 32) + j`, and that id is decoded back with `>> 32` and `(<< 32) >> 32`.

Files, one module per source file (plus shared vocabulary):

| file | module | models |
|---|---|---|
| base.dfy | `Base` | `Option`, `Result<_, String>`, bytes, `u32`/`u64` ranges, keys |
| primitives.dfy | `Primitives` | `SVMPrimitives`: `U24(n)` with n < 2^24, and `Tup` of values |
| formatting.dfy | `Formatting` | `format!("{}", n)`, `format!("0x{}", i)`, `String::as_bytes` (UTF-8) and a UTF-8 decoder as its inverse |
| svm_memory.dfy | `SvmMemory`, `CommitProperties` | the store and transaction classes; validation and application as functions of the store; their properties |
| interleavings.dfy | `Interleavings` | transactions interleaved by hand over one store |
| block_stm.dfy | `BlockStm` | `get_val` |
| executor.dfy | `Executor` | `process_tx` |
| alloc.dfy | `Alloc` | `alloc` |
| transfer.dfy | `Transfer` | the transaction ids, pairs and transaction bodies of `reverse_transfer` |

The store and the transaction are classes whose methods update their fields in place. Each method's `ensures` gives the new state in terms of the old one. `Commit` is proved against two specification functions:

- `Validates`, which is the validation loop;
- `ApplyWrites`, which is the apply loop.

The lemmas in `CommitProperties` state what those functions promise. `retry_transaction`'s source is not part of this model. Each caller (`GetVal`, `ProcessTx`, `Alloc`) therefore runs one attempt: a fresh `Transaction`, the body, then `Commit` when the body returns `Ok`. The body's `Err` goes back to the caller unchanged.

The model is sequential: nothing runs between an attempt's reads and its commit. Two facts are proved about that:

- `Transaction.Read` (and each body built on it) keeps `Transaction.ReadSetCurrent`, which says every recorded read still matches the store;
- `Transaction.Commit` returns true whenever `ReadSetCurrent` held before it, so that single attempt always commits.

Conflicts come from concurrent attempts. `Interleavings` builds them by hand, for example two transactions on one store whose calls alternate.

Some behaviours of the code that are easy to miss, all modelled as the code has them:

- **Repeated reads.** A repeated read of a key replaces its read-set entry, because the read set is updated with `HashMap::insert` (src/block_stm/svm_memory.rs:55). The last read is the one validated.
- **Absent keys at validation.** A read-set key that is absent from the store at validation time passes, because the version check sits inside `if let Some(tv)` (src/block_stm/svm_memory.rs:69).
- **The `Primitive` type.** It is `U24` plus `Tup`, because the callers match on `Tup`. There is no `Empty` variant.
- **`set`.** It takes a whole `SVMObject`.

## Model

| member | source | states |
|---|---|---|
| `SvmMemory.SVMMemory.constructor` | src/block_stm/svm_memory.rs:19-23 | a new store holds no objects |
| `SvmMemory.SVMMemory.Get` | src/block_stm/svm_memory.rs:25-27 | returns the object under the key exactly when the key is present, else `None` |
| `SvmMemory.SVMMemory.Set` | src/block_stm/svm_memory.rs:29-31 | after `set(k, o)`, `get(k)` returns `o` and `get` of every other key is what it was |
| `SvmMemory.Transaction.constructor` | src/block_stm/svm_memory.rs:41-47 | a new transaction is bound to the given store, with an empty read set and an empty write set |
| `SvmMemory.Transaction.Read` | src/block_stm/svm_memory.rs:49-60 | a buffered key returns the buffered value and leaves the read set alone; a stored key returns the stored value and sets its read-set entry to (value, version), replacing any earlier one; a key in neither returns `None` and records nothing; the store and write set never change; reads that were current stay current |
| `SvmMemory.Transaction.Write` | src/block_stm/svm_memory.rs:62-64 | the write set becomes the old one with the key set to the value (last write wins); read set and store untouched |
| `SvmMemory.Transaction.Commit` | src/block_stm/svm_memory.rs:66-83 | returns true exactly when validation passes against the store at commit time; on false the store is unchanged; on true the store is the old store with the write set applied at current version + 1; an attempt whose reads are still current always commits |
| `CommitProperties.CommittedState` | src/block_stm/svm_memory.rs:77-82 | after a commit no key has disappeared, every written key holds its buffered value at its old version (0 if absent) plus 1, every other key is unchanged |
| `CommitProperties.VersionsMonotonic` | src/block_stm/svm_memory.rs:77-79 | a commit never lowers a key's version and strictly raises the version of every written key |
| `CommitProperties.EmptyReadSetValidates` | src/block_stm/svm_memory.rs:68-75 | an empty read set always validates, so a write-only transaction never conflicts |
| `CommitProperties.AbsentKeyNeverConflicts` | src/block_stm/svm_memory.rs:68-73 | a read-set key absent from the store does not affect whether validation passes |
| `CommitProperties.ConflictIffVersionMoved` | src/block_stm/svm_memory.rs:68-74 | validation fails if and only if some read-set key present in the store has a version other than the one recorded |
| `CommitProperties.CurrentReadsValidate` | src/block_stm/svm_memory.rs:54-74 | reads that still match the store always validate |
| `CommitProperties.StaleReadConflicts` | src/block_stm/svm_memory.rs:68-79 | if another commit wrote a key this transaction read while current, this transaction no longer validates, so none of its writes applies |
| `CommitProperties.DisjointCommitKeepsValidation` | src/block_stm/svm_memory.rs:68-79 | a commit that writes none of the keys a transaction read cannot make that transaction's validation fail |
| `CommitProperties.SequentialDisjointCommits` | src/block_stm/svm_memory.rs:77-80 | two commits of disjoint write sets in a row give the same store as one commit of both |
| `CommitProperties.DisjointCommitsCommute` | src/block_stm/svm_memory.rs:77-80 | commits of disjoint write sets give the same store in either order |
| `Interleavings.StaleReadIsRejected` | src/block_stm/svm_memory.rs:49-83 | two attempts read `x` at version 1; the first commits `U24(1)` at version 2; the second, which wrote `U24(2)`, then fails to commit and the store still holds (`U24(1)`, 2) |
| `Interleavings.RetryAfterConflict` | src/block_stm/svm_memory.rs:49-83 | a fresh attempt on a store set up in the state that conflict leaves (`x` = `U24(1)` at version 2) reads `U24(1)`, writes `U24(2)` and commits at version 3 |
| `Interleavings.DisjointWritersBothCommit` | src/block_stm/svm_memory.rs:62-83 | two write-only attempts on different keys both commit, each key at version 1 |
| `Interleavings.ReadYourWrites` | src/block_stm/svm_memory.rs:49-64 | after `write(x, U24(5))` the transaction reads `U24(5)` while the store still holds (`U24(0)`, 1); its commit stores (`U24(5)`, 2) |
| `Interleavings.AbsentReadIsUnprotected` | src/block_stm/svm_memory.rs:54-74 | an attempt that read `y` as absent still commits after another attempt created `y` in between |
| `BlockStm.GetValBody` | src/block_stm/mod.rs:9-15 | returns `Ok` of the value the transaction sees under the key's bytes, or `Err("key=<key> does not exist")` when there is none; the read set gains the key at its stored value and version when the read went to the store (`read_set.insert`, src/block_stm/svm_memory.rs:55) and is otherwise unchanged; recorded reads stay current |
| `BlockStm.GetVal` | src/block_stm/mod.rs:7-19 | returns `Some` of the stored value under the UTF-8 bytes of the key when present, `None` when absent; the store is unchanged |
| `Executor.ObjectKeys` | src/executor/mod.rs:24-25 | one key per object, in order, each the UTF-8 bytes of the object's name |
| `Executor.ReadObjectsOk` | src/executor/mod.rs:23-30 | the reads succeed exactly when every object is visible, and then yield the objects' values in `objs` order |
| `Executor.ReadObjectsFirstMissing` | src/executor/mod.rs:24-28 | a failed read reports `key=<k> does not exist` for the first object in `objs` order that is missing, all earlier ones being present |
| `Executor.BodyOutcome` | src/executor/mod.rs:38-63 | a read error is returned as is; `Ok` only when the executor, given the read values followed by `args`, returned a tuple with at least as many elements as objects, and then it is that whole tuple; a panic only when that tuple is shorter, at its length |
| `Executor.PositionalWritesKeys` | src/executor/mod.rs:46-47 | the write-back writes exactly the objects' keys |
| `Executor.PositionalWritesAt` | src/executor/mod.rs:42-47 | the key of `objs[i]` receives `els[i]` when no later object has the same key (later positions win) |
| `Executor.ReadAll` | src/executor/mod.rs:23-30 | the read loop returns what `ReadObjects` specifies; read-set entries of keys outside the objects are kept, every new or changed entry is the store's current value and version, and when all reads succeed every object without a buffered write is recorded at its stored value and version; recorded reads stay current |
| `Executor.WriteBack` | src/executor/mod.rs:45-56 | the write-back panics exactly when the tuple is shorter than `objs`, at index `|els|`; otherwise it adds the positional writes to the write set |
| `Executor.ProcessTxBody` | src/executor/mod.rs:22-64 | the body's outcome is `BodyOutcome` of the reads; a completed body has buffered exactly the positional writes of a successful result and nothing otherwise; the read set changes as `Executor.ReadAll` states, so when the reads succeed every object without a buffered write is recorded at its stored version |
| `Executor.ProcessTx` | src/executor/mod.rs:12-70 | returns `BodyOutcome` of reading the objects from the store; the store afterwards has the positional writes applied on success and is unchanged on any error or panic |
| `Alloc.AllocWritesKeys` | src/examples/alloc.rs:10-17 | the allocation writes exactly the keys `0x{n}` with a <= n < i, each to `U24(0)` |
| `Alloc.AllocBody` | src/examples/alloc.rs:15-18 | the body buffers `U24(0)` for its key, reads nothing and returns `Ok(None)` |
| `Alloc.Alloc` | src/examples/alloc.rs:7-28 | after the loop, the store is the old store with every allocation write applied; each attempt commits the first time |
| `Alloc.AllocStep` | src/examples/alloc.rs:10-16 | the next account's key has not been written by earlier iterations, and its write is the only one added |
| `Alloc.AllocatedInRange` | src/examples/alloc.rs:10-17 | every account `0x{i}` with a <= i <= b holds `U24(0)` at its old version plus 1 |
| `Alloc.AllocatedElsewhere` | src/examples/alloc.rs:10-17 | every key that is not an account in a..=b is unchanged: present with the same object if it was present, absent if it was absent |
| `Alloc.OutOfRangeUntouched` | src/examples/alloc.rs:10-16 | an account `0x{n}` with n outside a..=b is unchanged: present with the same object if it existed, still absent if it did not |
| `Alloc.AllocEmptyRange` | src/examples/alloc.rs:10 | when a > b nothing is written |
| `Transfer.TxId` | src/examples/transfer.rs:86 | `(i << 32) + j` equals i * 2^32 + j and fits a u64 |
| `Transfer.TxIdRoundTrip` | src/examples/transfer.rs:117-118 | `txid >> 32` gives back i and `(txid << 32) >> 32`, in wrapping u64 arithmetic, gives back j |
| `Transfer.TxIdInjective` | src/examples/transfer.rs:86 | distinct (i, j) pairs get distinct ids |
| `Transfer.Row` | src/examples/transfer.rs:82 | the inner loop for i yields i - a pairs |
| `Transfer.PairsMembership` | src/examples/transfer.rs:78-82 | a pair (i, j) is produced exactly when a <= j < i <= b |
| `Transfer.PairsDistinct` | src/examples/transfer.rs:78-87 | no pair is produced twice |
| `Transfer.PairsCount` | src/examples/transfer.rs:76-87 | the number of pairs is (b - a)(b - a + 1) / 2 when a <= b, else 0 |
| `Transfer.ReverseTransferTxs` | src/examples/transfer.rs:76-97 | the nested loops build one transaction per pair, in loop order, and `total_txs` equals their number |
| `Transfer.TransferTxShape` | src/examples/transfer.rs:89-97 | every transaction, the last one included, uses the transfer code, has objects `0x{i}` then `0x{j}` with distinct keys, and has arguments `[U24(1)]` |
| `Transfer.TransferTxHashesDistinct` | src/examples/transfer.rs:86-93 | no two transactions of one run share a transaction hash |
| `Formatting.Decimal` | src/examples/transfer.rs:93 | `format!("{}", n)` is a non-empty digit string that starts with `0` only for n = 0 and has one digit exactly when n < 10 |
| `Formatting.ParseDecimalOfDecimal` | src/examples/transfer.rs:93 | reading the decimal string back gives n |
| `Formatting.DecimalInjective` | src/examples/transfer.rs:93 | distinct numbers print differently |
| `Formatting.Address` | src/examples/alloc.rs:13 | `format!("0x{}", i)` is `0x` followed by the decimal digits of i |
| `Formatting.AddressInjective` | src/examples/alloc.rs:13 | distinct accounts get distinct address strings |
| `Formatting.EncodeChar` | src/block_stm/mod.rs:8 | one to four bytes; one byte equal to the character exactly for ASCII; otherwise a leading byte of at least 0xC0 followed by continuation bytes in 0x80..0xBF |
| `Formatting.Utf8` | src/block_stm/mod.rs:8 | the UTF-8 bytes of a string are at least as many as its characters |
| `Formatting.DecodeUtf8` | src/block_stm/mod.rs:8 | decoding the UTF-8 bytes of a string gives back the string |
| `Formatting.Utf8Injective` | src/block_stm/mod.rs:8 | distinct strings give distinct keys |
| `Formatting.AddressKeyInjective` | src/examples/alloc.rs:13-14 | distinct accounts have distinct store keys |

## Left out

- `retry_transaction`: its source is not part of this model. Each caller runs one attempt (body, then commit), and a body's `Err` is returned as is. The unbounded retry loop, the backoff sleep and the timing variant are not modelled. In the sequential model one attempt always commits, so the loop would never repeat. Conflicts and their retry are shown by hand in `Interleavings`.
- Concurrency: the `DashMap`'s thread safety, `Arc`, and the `JoinSet`/`tokio::spawn` tasks of `alloc` and `reverse_transfer`. Calls run one after another. `CommitProperties.DisjointCommitsCommute` shows that the order of disjoint commits does not matter.
- `SvmMemory.Transaction.Commit`: a commit is one atomic step in the model. In the source, validation (src/block_stm/svm_memory.rs:68-74) and application (src/block_stm/svm_memory.rs:77-81) are two separate passes over the shared `DashMap`, and another thread's commit can run between them. Two attempts that read the same version of a key can then both validate and both apply, and one update is lost. `CommitProperties.StaleReadConflicts` and the `Interleavings` scenarios hold only for commits that do not overlap in time.
- The code executor (the Bend/HVM virtual machine, `SVM::run_code`). It is a foreign compiler and runtime, so it is a function parameter from code id and arguments to a value or an error message.
- The conversion to and from the executor's terms (`to_term`, `from_term`). It is a boundary to a foreign type. As written, `from_term` handles only numbers and panics through `todo!` on anything else, so with that code `process_tx` could not actually receive a `Tup`. The model follows the callers, which expect one.
- The Redis write-through in `process_tx` (`RedisService::new`, `hset`, the JSON serialisation and the logging of their failures). This is network I/O. Failures of `hset` are only logged. But `RedisService::new(...).unwrap()` (src/executor/mod.rs:20) panics when the client or its connection cannot be created (src/executor/redis.rs:25-29), which ends `process_tx` before any read. The model assumes the service can be created.
- `Alloc.Alloc`: spawned tasks run in loop order, and a failed transaction is logged in the source. The body never fails, so that log line is unreachable and is not modelled.
- `Executor.ProcessTx`: the Rust panic on `modified_objs[index]` past the tuple's end is the outcome `Panicked(index)`. In the source the spawned task dies and the buffered writes are dropped. The model shows the same effect: no writes reach the store.
- `SvmMemory.SVMObject`: versions are unbounded naturals. The `u64` overflow of `version + 1` after 2^64 commits of one key is not modelled.
- `Transfer.ReverseTransferTxs`: `total_txs` is an `i32` in the source (its type defaults), and its overflow beyond 2^31 - 1 transactions is not modelled. With a = u32::MAX, the model yields no transactions. So does the source's release build, where `a + 1` wraps. A debug build panics instead.
- `transfer` (src/examples/transfer.rs:12-68): the chain of transfers between neighbouring accounts is not modelled on its own. Its body is `process_tx`'s body with the two objects `0x{i}`, `0x{i-1}` and the argument `U24(1)`, except that its error for a non-tuple result also prints the term (`unexpected type of result term=…`, src/examples/transfer.rs:53, against `unexpected type of result` at src/executor/mod.rs:59).
- The statistics of `reverse_transfer`: the `txs_timers` map is never filled, the `stat.csv` write is file I/O, and there are timings and `info!`/`error!` logging. Only the id decoding used there is modelled (`Transfer.SenderOf`, `Transfer.ReceiverOf`).
- The socket and websocket layers, `main`, the query and move drivers, and the Redis service. They are transport, parsing and logging, outside the transactional memory.
