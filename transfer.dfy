/**
 * The transaction set of `reverse_transfer`: one transfer of `U24(1)` from account `0x{i}` to
 * account `0x{j}` for every pair a <= j < i <= b, each named by the id `(i << 32) + j`.
 */
module Transfer {
  import opened Base
  import opened Primitives
  import opened Formatting
  import opened Executor

  /** The code id of the built-in transfer program. */
  const TRANSFER_CODE_ID: string := "0xtransfer"

  // ---------------------------------------------------------------------------------------------
  // Transaction ids

  /** `x << 32` on a `u64`: bits shifted past bit 63 are lost. */
  function Shl32(x: u64): u64 {
    (x * U32_LIMIT) % U64_LIMIT
  }

  /** `x >> 32` on a `u64`. */
  function Shr32(x: u64): u64 {
    x / U32_LIMIT
  }

  /** `((i as u64) << 32) + (j as u64)`: never wraps, since `i` and `j` fit in 32 bits. */
  function TxId(i: u32, j: u32): (id: u64)
    ensures id == i * U32_LIMIT + j
  {
    Shl32(i) + j
  }

  /** The sender index read back from an id: `txid >> 32`. */
  function SenderOf(id: u64): u64 {
    Shr32(id)
  }

  /** The receiver index read back from an id: `(txid << 32) >> 32`. */
  function ReceiverOf(id: u64): u64 {
    Shr32(Shl32(id))
  }

  /** Both halves of an id decode back to the numbers it was built from. */
  lemma TxIdRoundTrip(i: u32, j: u32)
    ensures SenderOf(TxId(i, j)) == i
    ensures ReceiverOf(TxId(i, j)) == j
  {
  }

  /** Distinct pairs get distinct ids. */
  lemma TxIdInjective(i: u32, j: u32, i': u32, j': u32)
    ensures TxId(i, j) == TxId(i', j') ==> i == i' && j == j'
  {
  }

  // ---------------------------------------------------------------------------------------------
  // The pairs and their transactions

  /** The pairs of one pass of the outer loop: `(i, j)` for `j` from `a` up to `i - 1`. */
  function Row(a: u32, i: u32): (row: seq<(u32, u32)>)
    requires a <= i
    ensures |row| == i - a
  {
    seq(i - a, k requires 0 <= k < i - a => (i, a + k))
  }

  /** The pairs of the outer-loop passes for `i` from `hi` down to `lo + 1`. */
  function Rows(a: u32, lo: u32, hi: u32): seq<(u32, u32)>
    requires a <= lo
    decreases hi
  {
    if hi <= lo then [] else Row(a, hi) + Rows(a, lo, hi - 1)
  }

  /** All pairs of `reverse_transfer(a, b)`, in the order its loops produce them. */
  function Pairs(a: u32, b: u32): seq<(u32, u32)> {
    Rows(a, a, b)
  }

  /** Adding the next (lower) row of the outer loop extends the pairs at the end. */
  lemma {:induction false} RowsExtend(a: u32, lo: u32, hi: u32)
    requires a < lo <= hi
    ensures Rows(a, lo - 1, hi) == Rows(a, lo, hi) + Row(a, lo)
    decreases hi
  {
    if hi > lo {
      RowsExtend(a, lo, hi - 1);
    }
  }

  /** A pair is produced exactly when a <= j < i <= b. */
  lemma {:induction false} PairsMembership(a: u32, lo: u32, hi: u32, i: u32, j: u32)
    requires a <= lo
    ensures (i, j) in Rows(a, lo, hi) <==> a <= j < i && lo < i <= hi
    decreases hi
  {
    if hi > lo {
      PairsMembership(a, lo, hi - 1, i, j);
      if i == hi && a <= j < i {
        assert Row(a, hi)[j - a] == (i, j);
      }
    }
  }

  predicate NoDuplicates<T(==)>(s: seq<T>) {
    forall x, y :: 0 <= x < y < |s| ==> s[x] != s[y]
  }

  /** No pair is produced twice. */
  lemma {:induction false} PairsDistinct(a: u32, lo: u32, hi: u32)
    requires a <= lo
    ensures NoDuplicates(Rows(a, lo, hi))
    ensures forall p :: p in Rows(a, lo, hi) ==> p.0 <= hi
    decreases hi
  {
    if hi > lo {
      PairsDistinct(a, lo, hi - 1);
      var row, rest := Row(a, hi), Rows(a, lo, hi - 1);
      var s := row + rest;
      forall x, y | 0 <= x < y < |s| ensures s[x] != s[y] {
        if y >= |row| && x < |row| {
          assert s[y] == rest[y - |row|] && s[y] in rest;
        }
      }
    }
  }

  /** `reverse_transfer(a, b)` produces (b - a)(b - a + 1) / 2 transactions. */
  lemma {:induction false} PairsCount(a: u32, b: u32)
    ensures |Pairs(a, b)| == if a <= b then (b - a) * (b - a + 1) / 2 else 0
  {
    RowsCount(a, a, b);
  }

  lemma {:induction false} RowsCount(a: u32, lo: u32, hi: u32)
    requires a == lo
    ensures |Rows(a, lo, hi)| == if lo <= hi then (hi - a) * (hi - a + 1) / 2 else 0
    decreases hi
  {
    if hi > lo {
      RowsCount(a, lo, hi - 1);
      var d := hi - a;
      assert (d - 1) * d + 2 * d == d * (d + 1);
    }
  }

  /** The transaction for the pair `(i, j)`: transfer `U24(1)` from `0x{i}` to `0x{j}`. */
  function TransferTx(i: u32, j: u32): TxBody {
    TxBody(Decimal(TxId(i, j)), TRANSFER_CODE_ID, [Address(i), Address(j)], [U24(1)])
  }

  /**
   * The nested loops of `reverse_transfer`: for `i` from `b` down to `a + 1` and `j` from `a`
   * up to `i - 1`, build the transaction for `(i, j)` and count it.
   */
  method ReverseTransferTxs(a: u32, b: u32) returns (txs: seq<TxBody>, totalTxs: nat)
    ensures |txs| == totalTxs == |Pairs(a, b)|
    ensures forall k :: 0 <= k < |txs| ==> txs[k] == TransferTx(Pairs(a, b)[k].0, Pairs(a, b)[k].1)
  {
    txs, totalTxs := [], 0;
    if b <= a {
      return;
    }
    ghost var done: seq<(u32, u32)> := [];
    var i: u32 := b;
    while a < i
      invariant a <= i <= b
      invariant done == Rows(a, i, b)
      invariant |txs| == totalTxs == |done|
      invariant forall k :: 0 <= k < |txs| ==> txs[k] == TransferTx(done[k].0, done[k].1)
    {
      var j: u32 := a;
      while j < i
        invariant a <= j <= i
        invariant done == Rows(a, i, b) + Row(a, i)[..j - a]
        invariant |txs| == totalTxs == |done|
        invariant forall k :: 0 <= k < |txs| ==> txs[k] == TransferTx(done[k].0, done[k].1)
      {
        assert Row(a, i)[..j + 1 - a] == Row(a, i)[..j - a] + [(i, j)];
        txs := txs + [TransferTx(i, j)];
        totalTxs := totalTxs + 1;
        done := done + [(i, j)];
        j := j + 1;
      }
      assert Row(a, i)[..i - a] == Row(a, i);
      RowsExtend(a, i, b);
      i := i - 1;
    }
  }

  /** Every transaction moves `U24(1)` with the transfer code between two different accounts. */
  lemma TransferTxShape(a: u32, b: u32, x: nat)
    requires x < |Pairs(a, b)|
    ensures var (i, j) := Pairs(a, b)[x];
      && TransferTx(i, j).codeHash == TRANSFER_CODE_ID
      && TransferTx(i, j).objs == [Address(i), Address(j)]
      && AddressKey(i) != AddressKey(j)
      && TransferTx(i, j).args == [U24(1)]
  {
    var (i, j) := Pairs(a, b)[x];
    PairsMembership(a, a, b, i, j);
    AddressKeyInjective(i, j);
  }

  /** No two transactions of one run share a transaction hash. */
  lemma TransferTxHashesDistinct(a: u32, b: u32, x: nat, y: nat)
    requires x < y < |Pairs(a, b)|
    ensures TransferTx(Pairs(a, b)[x].0, Pairs(a, b)[x].1).txHash
         != TransferTx(Pairs(a, b)[y].0, Pairs(a, b)[y].1).txHash
  {
    var (i, j) := Pairs(a, b)[x];
    var (i', j') := Pairs(a, b)[y];
    PairsDistinct(a, a, b);
    DecimalInjective(TxId(i, j), TxId(i', j'));
    TxIdInjective(i, j, i', j');
  }
}
