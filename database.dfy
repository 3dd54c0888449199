/**
 * The Postgres store as in-memory tables. The queries are functions of the
 * rows they read; the statements that insert or update rows are methods of
 * the `Database` class, whose fields are the tables, the serial sequences and
 * the snapshot an open transaction would return to.
 */
module Database {
  import opened Records
  import opened Tables
  import Address

  // ---------------------------------------------------------------------------
  // Row filters used by the queries and updates
  // ---------------------------------------------------------------------------

  /** `WHERE height = $1 AND _is_valid = true` */
  function ValidAtHeight(height: nat): Row<BlockData> -> bool {
    (b: Row<BlockData>) => b.isValid && b.data.height == height
  }

  /** `WHERE height = $1 AND blockhash = $2 AND _is_valid = true` */
  function ValidWithHash(height: nat, blockhash: Hash): Row<BlockData> -> bool {
    (b: Row<BlockData>) => b.isValid && b.data.height == height && b.data.blockhash == blockhash
  }

  /** `WHERE height = $1 AND blockhash <> $2 AND _is_valid = true` */
  function ValidWithOtherHash(height: nat, blockhash: Hash): Row<BlockData> -> bool {
    (b: Row<BlockData>) => b.isValid && b.data.height == height && b.data.blockhash != blockhash
  }

  /** `WHERE blockhash = $1 AND _is_valid = true` */
  function ValidBlockhash(blockhash: Hash): Row<BlockData> -> bool {
    (b: Row<BlockData>) => b.isValid && b.data.blockhash == blockhash
  }

  /** `WHERE <serial> = $1 AND _is_valid = true`; a null serial matches nothing. */
  function ValidSerial<T>(serial: Option<nat>): Row<T> -> bool {
    (r: Row<T>) => r.isValid && serial == Some(r.serial)
  }

  /** Some row of `tx_btc` with this serial has this txid (the join of `getOutputSerial`). */
  predicate HasTxid(txs: seq<Row<TxData>>, txSerial: nat, txid: Hash) {
    exists k | 0 <= k < |txs| :: txs[k].serial == txSerial && txs[k].data.txid == txid
  }

  /** The valid outputs that `getOutputSerial` joins to (txid, vout). */
  function ValidOutputOf(txs: seq<Row<TxData>>, txid: Hash, vout: nat): Row<OutputData> -> bool {
    (o: Row<OutputData>) => o.isValid && o.data.vout == vout && HasTxid(txs, o.data.txSerial, txid)
  }

  /** `SET fee = $1` */
  function SetFee(fee: int): TxData -> TxData {
    (d: TxData) => d.(fee := Some(fee))
  }

  /** `SET spent_by_input_serial = $1, is_spent = true` */
  function MarkSpent(inputSerial: nat): OutputData -> OutputData {
    (d: OutputData) => d.(spentByInputSerial := Some(inputSerial), isSpent := true)
  }

  /** `SET seq = $1, coinbase = $2` */
  function SetCoinbase(sequence: int, coinbase: string): BlockData -> BlockData {
    (d: BlockData) => d.(sequence := Some(sequence), coinbase := Some(coinbase))
  }

  /** Row `i` is the one row of the table that satisfies `p`. */
  ghost predicate OnlyMatch<T>(rows: seq<Row<T>>, p: Row<T> -> bool, i: int) {
    0 <= i < |rows| && p(rows[i]) && forall j :: 0 <= j < |rows| && j != i ==> !p(rows[j])
  }

  /** A statement that must hit exactly one row returns one row exactly when one row matches. */
  lemma SelectExactlyOne<T>(rows: seq<Row<T>>, p: Row<T> -> bool)
    ensures |Select(rows, p)| == 1 <==> exists i :: OnlyMatch(rows, p, i)
  {
    if |Select(rows, p)| == 1 {
      var i :| 0 <= i < |rows| && p(rows[i]) && Select(rows, p)[0] == rows[i];
      forall j | 0 <= j < |rows| && j != i ensures !p(rows[j]) {
        if p(rows[j]) {
          if i < j { SelectTwo(rows, p, i, j); } else { SelectTwo(rows, p, j, i); }
        }
      }
      assert OnlyMatch(rows, p, i);
    }
    if exists i :: OnlyMatch(rows, p, i) {
      var i :| OnlyMatch(rows, p, i);
      SelectAtMostOne(rows, p);
    }
  }

  // ---------------------------------------------------------------------------
  // The invariant of the block table
  // ---------------------------------------------------------------------------

  /** At most one valid block row per height. */
  ghost predicate UniqueValidHeights(blocks: seq<Row<BlockData>>) {
    forall i, j ::
      (0 <= i < |blocks| && 0 <= j < |blocks| && blocks[i].isValid && blocks[j].isValid &&
       blocks[i].data.height == blocks[j].data.height) ==> i == j
  }

  // ---------------------------------------------------------------------------
  // Queries
  // ---------------------------------------------------------------------------

  /**
   * `existsBlock`: true when a valid row has this height and hash; otherwise
   * ForkDetectedError when a valid row at this height has another hash, and
   * false when no valid row has this height. Two valid rows with this height
   * and hash fail the assertion that the first query returned one row.
   */
  function ExistsBlock(blocks: seq<Row<BlockData>>, height: nat, blockhash: Hash): (r: Result<bool>)
    ensures r == Ok(false) <==> forall i :: 0 <= i < |blocks| ==> !ValidAtHeight(height)(blocks[i])
    ensures r == Ok(true) ==> exists i :: 0 <= i < |blocks| && ValidWithHash(height, blockhash)(blocks[i])
    ensures r == Err(ForkDetected(height)) <==>
      (forall i :: 0 <= i < |blocks| ==> !ValidWithHash(height, blockhash)(blocks[i])) &&
      (exists i :: 0 <= i < |blocks| && ValidWithOtherHash(height, blockhash)(blocks[i]))
    ensures r == Err(AssertionError) <==>
      exists i, j :: 0 <= i < j < |blocks| && ValidWithHash(height, blockhash)(blocks[i]) &&
                     ValidWithHash(height, blockhash)(blocks[j])
    ensures r.Err? ==> r.error == ForkDetected(height) || r.error == AssertionError
  {
    var same := Select(blocks, ValidWithHash(height, blockhash));
    if |same| == 0 then
      var other := Select(blocks, ValidWithOtherHash(height, blockhash));
      if |other| > 0 then Err(ForkDetected(height)) else Ok(false)
    else
      ExistsBlockCounts(blocks, height, blockhash);
      if |same| == 1 then Ok(true) else Err(AssertionError)
  }

  lemma ExistsBlockCounts(blocks: seq<Row<BlockData>>, height: nat, blockhash: Hash)
    ensures |Select(blocks, ValidWithHash(height, blockhash))| >= 2 <==>
      exists i, j :: 0 <= i < j < |blocks| && ValidWithHash(height, blockhash)(blocks[i]) &&
                     ValidWithHash(height, blockhash)(blocks[j])
  {
    var p := ValidWithHash(height, blockhash);
    if exists i, j :: 0 <= i < j < |blocks| && p(blocks[i]) && p(blocks[j]) {
      var i, j :| 0 <= i < j < |blocks| && p(blocks[i]) && p(blocks[j]);
      SelectTwo(blocks, p, i, j);
    } else {
      SelectAtMostOne(blocks, p);
    }
  }

  /** With at most one valid block per height, `existsBlock` never fails its assertion. */
  lemma ExistsBlockUnique(blocks: seq<Row<BlockData>>, height: nat, blockhash: Hash)
    requires UniqueValidHeights(blocks)
    ensures ExistsBlock(blocks, height, blockhash) != Err(AssertionError)
    ensures (exists i :: 0 <= i < |blocks| && ValidWithHash(height, blockhash)(blocks[i])) ==>
      ExistsBlock(blocks, height, blockhash) == Ok(true)
  {
  }

  /** `getBestBlockHeight`: the greatest height of a valid block, or 0 when there is none. */
  function BestBlockHeight(blocks: seq<Row<BlockData>>): (r: nat)
    ensures forall i :: 0 <= i < |blocks| && blocks[i].isValid ==> blocks[i].data.height <= r
    ensures r > 0 ==> exists i :: 0 <= i < |blocks| && blocks[i].isValid && blocks[i].data.height == r
  {
    if |blocks| == 0 then 0
    else
      var init := blocks[..|blocks| - 1];
      var m := BestBlockHeight(init);
      var last := blocks[|blocks| - 1];
      assert forall i :: 0 <= i < |blocks| - 1 ==> blocks[i] == init[i];
      if last.isValid && last.data.height > m then last.data.height else m
  }

  /**
   * `getBlockhashByHeight`: the hash of the first valid row at this height,
   * DbError when there is none or its hash is empty.
   */
  function BlockhashByHeight(blocks: seq<Row<BlockData>>, height: nat): (r: Result<Hash>)
    ensures r.Err? ==> r.error == DbError
    ensures r.Ok? ==>
      r.value != "" &&
      exists i :: 0 <= i < |blocks| && ValidAtHeight(height)(blocks[i]) && blocks[i].data.blockhash == r.value
    ensures (forall i :: 0 <= i < |blocks| ==> !ValidAtHeight(height)(blocks[i])) ==> r == Err(DbError)
  {
    var rows := Select(blocks, ValidAtHeight(height));
    if |rows| == 0 || rows[0].data.blockhash == "" then Err(DbError) else Ok(rows[0].data.blockhash)
  }

  /** With one valid block per height, `getBlockhashByHeight` reads the hash of that block. */
  lemma BlockhashOfUniqueBlock(blocks: seq<Row<BlockData>>, height: nat, i: int)
    requires UniqueValidHeights(blocks)
    requires 0 <= i < |blocks| && ValidAtHeight(height)(blocks[i])
    ensures BlockhashByHeight(blocks, height) ==
      if blocks[i].data.blockhash == "" then Err(DbError) else Ok(blocks[i].data.blockhash)
  {
    var rows := Select(blocks, ValidAtHeight(height));
    var j :| 0 <= j < |blocks| && ValidAtHeight(height)(blocks[j]) && rows[0] == blocks[j];
  }

  /**
   * `getBlockBranchSerialByHeight`: the branch serial of the first valid row
   * at this height, DbError when there is none or its branch serial is null or 0.
   */
  function BlockBranchSerialByHeight(blocks: seq<Row<BlockData>>, height: nat): (r: Result<nat>)
    ensures r.Err? ==> r.error == DbError
    ensures r.Ok? ==>
      r.value != 0 &&
      exists i :: 0 <= i < |blocks| && ValidAtHeight(height)(blocks[i]) && blocks[i].data.branchSerial == Some(r.value)
    ensures (forall i :: 0 <= i < |blocks| ==> !ValidAtHeight(height)(blocks[i])) ==> r == Err(DbError)
  {
    var rows := Select(blocks, ValidAtHeight(height));
    if |rows| == 0 || !TruthyNat(rows[0].data.branchSerial) then Err(DbError)
    else Ok(rows[0].data.branchSerial.value)
  }

  /** With one valid block per height, `getBlockBranchSerialByHeight` reads the branch of that block. */
  lemma BranchSerialOfUniqueBlock(blocks: seq<Row<BlockData>>, height: nat, i: int)
    requires UniqueValidHeights(blocks)
    requires 0 <= i < |blocks| && ValidAtHeight(height)(blocks[i])
    ensures BlockBranchSerialByHeight(blocks, height) ==
      if TruthyNat(blocks[i].data.branchSerial) then Ok(blocks[i].data.branchSerial.value) else Err(DbError)
  {
    var rows := Select(blocks, ValidAtHeight(height));
    var j :| 0 <= j < |blocks| && ValidAtHeight(height)(blocks[j]) && rows[0] == blocks[j];
  }

  /** `getBestBranchSerial`: the greatest branch serial, null when there is no branch. */
  function BestBranchSerial(branches: seq<BranchRow>): (r: Option<nat>)
    ensures r.None? <==> |branches| == 0
    ensures r.Some? ==> (exists i :: 0 <= i < |branches| && branches[i].serial == r.value) &&
                        forall i :: 0 <= i < |branches| ==> branches[i].serial <= r.value
  {
    if |branches| == 0 then None
    else
      var init := branches[..|branches| - 1];
      var last := branches[|branches| - 1].serial;
      assert forall i :: 0 <= i < |branches| - 1 ==> branches[i] == init[i];
      match BestBranchSerial(init)
      case None => Some(last)
      case Some(m) => if last > m then Some(last) else Some(m)
  }

  /**
   * `getOutputSerial`: the serial of the one valid output with this vout whose
   * transaction has this txid; DbError unless exactly one matches.
   */
  function OutputSerial(txs: seq<Row<TxData>>, outputs: seq<Row<OutputData>>, txid: Hash, vout: nat): (r: Result<nat>)
    ensures r.Err? ==> r.error == DbError
    ensures r.Ok? <==> exists i :: OnlyMatch(outputs, ValidOutputOf(txs, txid, vout), i)
    ensures r.Ok? ==> exists i :: OnlyMatch(outputs, ValidOutputOf(txs, txid, vout), i) && outputs[i].serial == r.value
  {
    var rows := Select(outputs, ValidOutputOf(txs, txid, vout));
    SelectExactlyOne(outputs, ValidOutputOf(txs, txid, vout));
    if |rows| != 1 then Err(DbError) else Ok(rows[0].serial)
  }

  /** `getOutputValue`: the value of the one valid output with this serial; DbError unless exactly one. */
  function OutputValue(outputs: seq<Row<OutputData>>, outputSerial: nat): (r: Result<int>)
    ensures r.Err? ==> r.error == DbError
    ensures r.Ok? <==> exists i :: OnlyMatch(outputs, ValidSerial(Some(outputSerial)), i)
    ensures r.Ok? ==> exists i :: OnlyMatch(outputs, ValidSerial(Some(outputSerial)), i) && outputs[i].data.value == r.value
  {
    var rows := Select(outputs, ValidSerial(Some(outputSerial)));
    SelectExactlyOne(outputs, ValidSerial(Some(outputSerial)));
    if |rows| != 1 then Err(DbError) else Ok(rows[0].data.value)
  }

  /**
   * A row just inserted under a fresh serial is the one valid row with that
   * serial, so an update by that serial changes that row and no other.
   */
  lemma UpdateFreshRow<T>(rows: seq<Row<T>>, s: nat, d: T, f: T -> T)
    requires FreshSerial(rows, s)
    ensures OnlyMatch(rows + [Row(s, true, d)], ValidSerial(Some(s)), |rows|)
    ensures Update(rows + [Row(s, true, d)], ValidSerial(Some(s)), f) == rows + [Row(s, true, f(d))]
  {
    var all := rows + [Row(s, true, d)];
    assert forall j :: 0 <= j < |rows| ==> all[j] == rows[j];
  }

  /** Setting fees changes no txid, so `getOutputSerial` finds the same output. */
  lemma OutputSerialIgnoresFees(txs: seq<Row<TxData>>, p: Row<TxData> -> bool, fee: int,
                                outputs: seq<Row<OutputData>>, txid: Hash, vout: nat)
    ensures OutputSerial(Update(txs, p, SetFee(fee)), outputs, txid, vout) == OutputSerial(txs, outputs, txid, vout)
  {
    var updated := Update(txs, p, SetFee(fee));
    forall s: nat ensures HasTxid(updated, s, txid) == HasTxid(txs, s, txid) {
      if HasTxid(txs, s, txid) {
        var k :| 0 <= k < |txs| && txs[k].serial == s && txs[k].data.txid == txid;
        assert updated[k].serial == s && updated[k].data.txid == txid;
      }
    }
    var a := ValidOutputOf(txs, txid, vout);
    var b := ValidOutputOf(updated, txid, vout);
    assert forall i :: 0 <= i < |outputs| ==> (a(outputs[i]) <==> b(outputs[i]));
    assert forall i :: OnlyMatch(outputs, a, i) <==> OnlyMatch(outputs, b, i);
  }

  // ---------------------------------------------------------------------------
  // Bulk invalidation
  // ---------------------------------------------------------------------------

  /** `UPDATE block_btc SET _is_valid = false WHERE height > $1` */
  function InvalidatedAbove(blocks: seq<Row<BlockData>>, height: nat): (r: seq<Row<BlockData>>)
    ensures |r| == |blocks|
    ensures forall i :: 0 <= i < |blocks| ==> r[i].serial == blocks[i].serial && r[i].data == blocks[i].data
    ensures forall i :: 0 <= i < |blocks| && blocks[i].data.height <= height ==> r[i] == blocks[i]
    ensures forall i :: 0 <= i < |blocks| && blocks[i].data.height > height ==> !r[i].isValid
  {
    seq(|blocks|, i requires 0 <= i < |blocks| =>
      if blocks[i].data.height > height then blocks[i].(isValid := false) else blocks[i])
  }

  /** Invalidation keeps at most one valid block per height. */
  lemma InvalidatePreservesUnique(blocks: seq<Row<BlockData>>, height: nat)
    requires UniqueValidHeights(blocks)
    ensures UniqueValidHeights(InvalidatedAbove(blocks, height))
  {
  }

  /** After invalidating above a height, no valid block is higher. */
  lemma {:induction false} InvalidateCapsBestHeight(blocks: seq<Row<BlockData>>, height: nat)
    ensures BestBlockHeight(InvalidatedAbove(blocks, height)) <= height
  {
    var r := InvalidatedAbove(blocks, height);
    var b := BestBlockHeight(r);
    if b > 0 {
      var i :| 0 <= i < |r| && r[i].isValid && r[i].data.height == b;
    }
  }

  /** Invalidation changes none of the answers about heights at or below the cut. */
  lemma InvalidateKeepsLowerHeights(blocks: seq<Row<BlockData>>, height: nat, g: nat)
    requires g <= height
    ensures BlockhashByHeight(InvalidatedAbove(blocks, height), g) == BlockhashByHeight(blocks, g)
    ensures BlockBranchSerialByHeight(InvalidatedAbove(blocks, height), g) == BlockBranchSerialByHeight(blocks, g)
  {
    var r := InvalidatedAbove(blocks, height);
    SelectSameMatches(blocks, r, ValidAtHeight(g));
  }

  /** Two tables whose rows agree wherever either matches `p` give the same `SELECT`. */
  lemma {:induction false} SelectSameMatches<T>(a: seq<Row<T>>, b: seq<Row<T>>, p: Row<T> -> bool)
    requires |a| == |b|
    requires forall i :: 0 <= i < |a| && (p(a[i]) || p(b[i])) ==> a[i] == b[i]
    requires forall i :: 0 <= i < |a| ==> (p(a[i]) <==> p(b[i]))
    ensures Select(a, p) == Select(b, p)
  {
    if |a| > 0 {
      assert forall i :: 0 <= i < |a| - 1 ==> a[1..][i] == a[i + 1] && b[1..][i] == b[i + 1];
      SelectSameMatches(a[1..], b[1..], p);
    }
  }

  // ---------------------------------------------------------------------------
  // Address-linkage rows inserted by `saveOutput`
  // ---------------------------------------------------------------------------

  /**
   * The `output_address_btc` rows for the first `k` addresses of an output: one
   * per address the classifier accepts, with its index; an address it rejects
   * inserts nothing (its error is raised inside an un-awaited callback).
   */
  function AddressRows(outputSerial: nat, addrs: seq<string>, k: nat, net: Network): (r: seq<AddressRow>)
    requires k <= |addrs|
    ensures |r| <= k
    ensures forall j :: 0 <= j < |r| ==>
      r[j].outputSerial == outputSerial && r[j].isValid &&
      r[j].addrIdx < k && r[j].addr == addrs[r[j].addrIdx] &&
      Address.GetAddressType(r[j].addr, net) == Ok(r[j].addrType)
  {
    if k == 0 then []
    else
      var prev := AddressRows(outputSerial, addrs, k - 1, net);
      match Address.GetAddressType(addrs[k - 1], net)
      case Ok(t) => prev + [AddressRow(outputSerial, addrs[k - 1], k - 1, t, true)]
      case Err(_) => prev
  }

  /** Every address among the first `k` that the classifier accepts has a row. */
  lemma {:induction false} AddressRowsComplete(outputSerial: nat, addrs: seq<string>, k: nat, net: Network, i: nat)
    requires i < k <= |addrs| && Address.GetAddressType(addrs[i], net).Ok?
    ensures exists j ::
      0 <= j < |AddressRows(outputSerial, addrs, k, net)| && AddressRows(outputSerial, addrs, k, net)[j].addrIdx == i
    decreases k
  {
    var prev := AddressRows(outputSerial, addrs, k - 1, net);
    if i < k - 1 {
      AddressRowsComplete(outputSerial, addrs, k - 1, net, i);
      var j :| 0 <= j < |prev| && prev[j].addrIdx == i;
      if Address.GetAddressType(addrs[k - 1], net).Ok? {
        assert AddressRows(outputSerial, addrs, k, net)[j] == prev[j];
      } else {
        assert AddressRows(outputSerial, addrs, k, net) == prev;
      }
    } else {
      assert AddressRows(outputSerial, addrs, k, net)[|prev|].addrIdx == i;
    }
  }

  /** The address rows follow the order of the address list, one row per position at most. */
  lemma {:induction false} AddressRowsOrdered(outputSerial: nat, addrs: seq<string>, k: nat, net: Network)
    requires k <= |addrs|
    ensures forall j, m :: 0 <= j < m < |AddressRows(outputSerial, addrs, k, net)| ==>
      AddressRows(outputSerial, addrs, k, net)[j].addrIdx < AddressRows(outputSerial, addrs, k, net)[m].addrIdx
    decreases k
  {
    if k > 0 {
      AddressRowsOrdered(outputSerial, addrs, k - 1, net);
      var prev := AddressRows(outputSerial, addrs, k - 1, net);
      if Address.GetAddressType(addrs[k - 1], net).Ok? {
        assert forall j :: 0 <= j < |prev| ==> AddressRows(outputSerial, addrs, k, net)[j] == prev[j];
        assert AddressRows(outputSerial, addrs, k, net)[|prev|].addrIdx == k - 1;
      } else {
        assert AddressRows(outputSerial, addrs, k, net) == prev;
      }
    }
  }

  // ---------------------------------------------------------------------------
  // The store
  // ---------------------------------------------------------------------------

  /** The contents of all tables, as BEGIN records them and ROLLBACK restores them. */
  datatype Snapshot = Snapshot(
    branches: seq<BranchRow>, blocks: seq<Row<BlockData>>, txs: seq<Row<TxData>>,
    outputs: seq<Row<OutputData>>, inputs: seq<Row<InputData>>, addresses: seq<AddressRow>)

  ghost predicate BranchSerialsBelow(branches: seq<BranchRow>, next: nat) {
    forall i :: 0 <= i < |branches| ==> branches[i].serial < next
  }

  class Database {
    var branches: seq<BranchRow>
    var blocks: seq<Row<BlockData>>
    var txs: seq<Row<TxData>>
    var outputs: seq<Row<OutputData>>
    var inputs: seq<Row<InputData>>
    var addresses: seq<AddressRow>

    /** The next value of each table's serial sequence; ROLLBACK does not reset them. */
    var nextBranchSerial: nat
    var nextBlockSerial: nat
    var nextTxSerial: nat
    var nextOutputSerial: nat
    var nextInputSerial: nat

    /** The tables as they were at BEGIN, while a transaction is open. */
    var saved: Option<Snapshot>

    function Tables(): Snapshot
      reads this
    {
      Snapshot(branches, blocks, txs, outputs, inputs, addresses)
    }

    /** Every serial in the tables, and in the snapshot, was drawn from its sequence. */
    ghost predicate SnapshotValid(s: Snapshot)
      reads this
    {
      && BranchSerialsBelow(s.branches, nextBranchSerial)
      && SerialsBelow(s.blocks, nextBlockSerial)
      && SerialsBelow(s.txs, nextTxSerial)
      && SerialsBelow(s.outputs, nextOutputSerial)
      && SerialsBelow(s.inputs, nextInputSerial)
    }

    ghost predicate Valid()
      reads this
    {
      SnapshotValid(Tables()) && (saved.Some? ==> SnapshotValid(saved.value))
    }

    /** A fresh store: empty tables, every serial sequence at 1, and no open transaction. */
    constructor ()
      ensures Valid() && saved.None?
      ensures Tables() == Snapshot([], [], [], [], [], [])
      ensures nextBranchSerial == nextBlockSerial == nextTxSerial == nextOutputSerial == nextInputSerial == 1
    {
      branches, blocks, txs, outputs, inputs, addresses := [], [], [], [], [], [];
      nextBranchSerial, nextBlockSerial, nextTxSerial, nextOutputSerial, nextInputSerial := 1, 1, 1, 1, 1;
      saved := None;
    }

    /** BEGIN: records the tables; inside an open transaction it changes nothing. */
    method BeginTransaction()
      requires Valid()
      modifies this`saved
      ensures Valid()
      ensures saved == if old(saved).None? then Some(Tables()) else old(saved)
    {
      if saved.None? {
        saved := Some(Tables());
      }
    }

    /** COMMIT: keeps the tables as they are and closes the transaction. */
    method CommitTransaction()
      requires Valid()
      modifies this`saved
      ensures Valid() && saved.None?
    {
      saved := None;
    }

    /** ROLLBACK: returns the tables to what BEGIN recorded and closes the transaction. */
    method RollbackTransaction()
      requires Valid()
      modifies this`saved, this`branches, this`blocks, this`txs, this`outputs, this`inputs, this`addresses
      ensures Valid() && saved.None?
      ensures Tables() == if old(saved).Some? then old(saved).value else old(Tables())
    {
      if saved.Some? {
        var s := saved.value;
        branches, blocks, txs, outputs, inputs, addresses := s.branches, s.blocks, s.txs, s.outputs, s.inputs, s.addresses;
      }
      saved := None;
    }

    /** `saveBlock`: inserts a valid row and returns its fresh serial. */
    method SaveBlock(data: BlockData) returns (serial: nat)
      requires Valid()
      modifies this`blocks, this`nextBlockSerial
      ensures Valid()
      ensures nextBlockSerial == old(nextBlockSerial) + 1
      ensures serial == old(nextBlockSerial) && FreshSerial(old(blocks), serial)
      ensures blocks == old(blocks) + [Row(serial, true, data)]
    {
      serial := nextBlockSerial;
      blocks := blocks + [Row(serial, true, data)];
      nextBlockSerial := nextBlockSerial + 1;
    }

    /** `saveTransaction`: inserts a valid row and returns its fresh serial. */
    method SaveTransaction(data: TxData) returns (serial: nat)
      requires Valid()
      modifies this`txs, this`nextTxSerial
      ensures Valid()
      ensures nextTxSerial == old(nextTxSerial) + 1
      ensures serial == old(nextTxSerial) && FreshSerial(old(txs), serial)
      ensures txs == old(txs) + [Row(serial, true, data)]
    {
      serial := nextTxSerial;
      txs := txs + [Row(serial, true, data)];
      nextTxSerial := nextTxSerial + 1;
    }

    /**
     * `updateTransactionFee`: sets the fee of the valid rows with this serial,
     * and raises DbError unless exactly one row was updated.
     */
    method UpdateTransactionFee(txSerial: Option<nat>, fee: int) returns (o: Outcome)
      requires Valid()
      modifies this`txs
      ensures Valid()
      ensures txs == Update(old(txs), ValidSerial(txSerial), SetFee(fee))
      ensures o.Pass? <==> exists i :: OnlyMatch(old(txs), ValidSerial(txSerial), i)
      ensures o.Fail? ==> o.error == DbError
    {
      var updated := Select(txs, ValidSerial(txSerial));
      SelectExactlyOne(txs, ValidSerial(txSerial));
      txs := Update(txs, ValidSerial(txSerial), SetFee(fee));
      o := if |updated| != 1 then Fail(DbError) else Pass;
    }

    /**
     * `saveOutput`: inserts a valid row and returns its fresh serial; then one
     * `output_address_btc` row per address the classifier accepts.
     */
    method SaveOutput(data: OutputData, addrs: Option<seq<string>>, net: Network) returns (serial: nat)
      requires Valid()
      modifies this`outputs, this`nextOutputSerial, this`addresses
      ensures Valid()
      ensures nextOutputSerial == old(nextOutputSerial) + 1
      ensures serial == old(nextOutputSerial) && FreshSerial(old(outputs), serial)
      ensures outputs == old(outputs) + [Row(serial, true, data)]
      ensures addresses == old(addresses) +
        if addrs.Some? then AddressRows(serial, addrs.value, |addrs.value|, net) else []
    {
      serial := nextOutputSerial;
      outputs := outputs + [Row(serial, true, data)];
      nextOutputSerial := nextOutputSerial + 1;
      if addrs.Some? {
        SaveAddresses(serial, addrs.value, net);
      }
    }

    /** The loop of `saveOutput` over the output's addresses, in order. */
    method SaveAddresses(serial: nat, list: seq<string>, net: Network)
      modifies this`addresses
      ensures addresses == old(addresses) + AddressRows(serial, list, |list|, net)
    {
      for k := 0 to |list|
        invariant addresses == old(addresses) + AddressRows(serial, list, k, net)
      {
        var t := Address.GetAddressType(list[k], net);
        if t.Ok? {
          addresses := addresses + [AddressRow(serial, list[k], k, t.value, true)];
        }
      }
    }

    /**
     * `saveInput`: inserts a valid input row, then marks the valid output it
     * spends as spent by it; DbError unless exactly one output was updated.
     * Whether the output was already spent is not checked.
     */
    method SaveInput(data: InputData) returns (r: Result<nat>)
      requires Valid()
      modifies this`inputs, this`nextInputSerial, this`outputs
      ensures Valid()
      ensures nextInputSerial == old(nextInputSerial) + 1
      ensures FreshSerial(old(inputs), old(nextInputSerial))
      ensures inputs == old(inputs) + [Row(old(nextInputSerial), true, data)]
      ensures outputs == Update(old(outputs), ValidSerial(Some(data.outOutputSerial)), MarkSpent(old(nextInputSerial)))
      ensures r.Ok? <==> exists i :: OnlyMatch(old(outputs), ValidSerial(Some(data.outOutputSerial)), i)
      ensures r.Ok? ==> r.value == old(nextInputSerial)
      ensures r.Err? ==> r.error == DbError
    {
      var serial := nextInputSerial;
      inputs := inputs + [Row(serial, true, data)];
      nextInputSerial := nextInputSerial + 1;
      var o := MarkOutputSpent(data.outOutputSerial, serial);
      r := if o.Fail? then Err(o.error) else Ok(serial);
    }

    /** The UPDATE of `saveInput`: DbError unless exactly one valid output has this serial. */
    method MarkOutputSpent(outputSerial: nat, inputSerial: nat) returns (o: Outcome)
      requires Valid()
      modifies this`outputs
      ensures Valid()
      ensures outputs == Update(old(outputs), ValidSerial(Some(outputSerial)), MarkSpent(inputSerial))
      ensures o.Pass? <==> exists i :: OnlyMatch(old(outputs), ValidSerial(Some(outputSerial)), i)
      ensures o.Fail? ==> o.error == DbError
    {
      var p := ValidSerial(Some(outputSerial));
      var updated := Select(outputs, p);
      SelectExactlyOne(outputs, p);
      UpdateKeepsSerialsBelow(outputs, p, MarkSpent(inputSerial), nextOutputSerial);
      outputs := Update(outputs, p, MarkSpent(inputSerial));
      o := if |updated| != 1 then Fail(DbError) else Pass;
    }

    /**
     * `updateBlockCoinbase`: sets sequence and coinbase on the valid rows with
     * this hash, and raises DbError unless exactly one row was updated.
     */
    method UpdateBlockCoinbase(blockhash: Hash, sequence: int, coinbase: string) returns (o: Outcome)
      requires Valid()
      modifies this`blocks
      ensures Valid()
      ensures blocks == Update(old(blocks), ValidBlockhash(blockhash),
        SetCoinbase(sequence, coinbase))
      ensures o.Pass? <==> exists i :: OnlyMatch(old(blocks), ValidBlockhash(blockhash), i)
      ensures o.Fail? ==> o.error == DbError
    {
      var updated := Select(blocks, ValidBlockhash(blockhash));
      SelectExactlyOne(blocks, ValidBlockhash(blockhash));
      blocks := Update(blocks, ValidBlockhash(blockhash),
        SetCoinbase(sequence, coinbase));
      o := if |updated| != 1 then Fail(DbError) else Pass;
    }

    /** `addNewBranch`: inserts a branch row; its serial becomes the best branch serial. */
    method AddNewBranch(forkHeight: nat, parentBranchSerial: nat) returns (serial: nat)
      requires Valid()
      modifies this`branches, this`nextBranchSerial
      ensures Valid()
      ensures serial == old(nextBranchSerial) && nextBranchSerial == old(nextBranchSerial) + 1
      ensures branches == old(branches) + [BranchRow(serial, forkHeight, parentBranchSerial)]
      ensures BestBranchSerial(branches) == Some(serial)
    {
      serial := nextBranchSerial;
      branches := branches + [BranchRow(serial, forkHeight, parentBranchSerial)];
      nextBranchSerial := nextBranchSerial + 1;
      NewBranchIsBest(old(branches), serial, forkHeight, parentBranchSerial);
    }

    /** `invalidateBlocksHigherThan`: every block above the height becomes invalid; no row is removed. */
    method InvalidateBlocksHigherThan(height: nat)
      requires Valid()
      modifies this`blocks
      ensures Valid()
      ensures blocks == InvalidatedAbove(old(blocks), height)
    {
      blocks := InvalidatedAbove(blocks, height);
    }
  }

  /** A branch whose serial is above every existing one is the best branch once inserted. */
  lemma NewBranchIsBest(branches: seq<BranchRow>, serial: nat, forkHeight: nat, parent: nat)
    requires BranchSerialsBelow(branches, serial)
    ensures BestBranchSerial(branches + [BranchRow(serial, forkHeight, parent)]) == Some(serial)
  {
    var all := branches + [BranchRow(serial, forkHeight, parent)];
    assert all[..|all| - 1] == branches;
    var m := BestBranchSerial(branches);
    if m.Some? {
      var i :| 0 <= i < |branches| && branches[i].serial == m.value;
    }
  }
}
