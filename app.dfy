/**
 * One pass of `syncDb`: the height window, the per-height import inside a
 * transaction, and the recovery from a fork by rewinding to the best block
 * the store has in common with the node's chain.
 */
module App {
  import opened Records
  import opened Tables
  import Database
  import Block
  import Transaction
  import Output

  // ---------------------------------------------------------------------------
  // The height window
  // ---------------------------------------------------------------------------

  /** `Math.max(chainBlockcount - minConfirmations, 0)` */
  function HeightLimit(blockCount: int, minConfirmations: int): (r: nat)
    ensures r >= blockCount - minConfirmations
    ensures r == 0 || r == blockCount - minConfirmations
  {
    if blockCount - minConfirmations > 0 then blockCount - minConfirmations else 0
  }

  /** `startHeight || getBestBlockHeight()`: a null or 0 start height falls back to the best height. */
  function DbHeight(blocks: seq<Row<BlockData>>, startHeight: Option<nat>): (r: nat)
    ensures startHeight.Some? && startHeight.value != 0 ==> r == startHeight.value
    ensures startHeight.None? || startHeight == Some(0) ==>
      (forall i :: 0 <= i < |blocks| && blocks[i].isValid ==> blocks[i].data.height <= r) &&
      (r == 0 || exists i :: 0 <= i < |blocks| && blocks[i].isValid && blocks[i].data.height == r)
  {
    if TruthyNat(startHeight) then startHeight.value else Database.BestBlockHeight(blocks)
  }

  // ---------------------------------------------------------------------------
  // How the store relates to the chain
  // ---------------------------------------------------------------------------

  /** Every valid stored block at or above `from` has the chain's hash for its height. */
  ghost predicate Agrees(blocks: seq<Row<BlockData>>, chain: Chain, from: nat) {
    forall i :: 0 <= i < |blocks| && blocks[i].isValid && blocks[i].data.height >= from ==>
      chain.blockHash(blocks[i].data.height) == Some(blocks[i].data.blockhash)
  }

  /** The genesis block is common to the store and the chain whenever the store has one. */
  ghost predicate GenesisAgrees(blocks: seq<Row<BlockData>>, chain: Chain) {
    forall i :: 0 <= i < |blocks| && blocks[i].isValid && blocks[i].data.height == 0 ==>
      chain.blockHash(0) == Some(blocks[i].data.blockhash)
  }

  /** The store holds the chain's block at height `h` as a valid row. */
  ghost predicate MirroredAt(blocks: seq<Row<BlockData>>, chain: Chain, h: nat) {
    chain.blockHash(h).Some? &&
    exists i :: 0 <= i < |blocks| && Database.ValidWithHash(h, chain.blockHash(h).value)(blocks[i])
  }

  /** The rows of `a` are still in `b`, with the same serial, validity, height, hash and branch. */
  ghost predicate KeysPreserved(a: seq<Row<BlockData>>, b: seq<Row<BlockData>>) {
    |a| <= |b| &&
    forall i :: 0 <= i < |a| ==>
      b[i].serial == a[i].serial && b[i].isValid == a[i].isValid && b[i].data.height == a[i].data.height &&
      b[i].data.blockhash == a[i].data.blockhash && b[i].data.branchSerial == a[i].data.branchSerial
  }

  // ---------------------------------------------------------------------------
  // The common-ancestor search
  // ---------------------------------------------------------------------------

  /** `getBlockhashByHeight` as a lookup from height to answer. */
  function StoredHashes(blocks: seq<Row<BlockData>>): nat -> Result<Hash> {
    (h: nat) => Database.BlockhashByHeight(blocks, h)
  }

  /** The node and the store both answer for height `h`. */
  predicate Answered(chainHash: nat -> Option<Hash>, storedHash: nat -> Result<Hash>, h: nat) {
    chainHash(h).Some? && storedHash(h).Ok?
  }

  /** At height `h` the chain's hash is the stored one. */
  predicate AgreeAt(chainHash: nat -> Option<Hash>, storedHash: nat -> Result<Hash>, h: nat) {
    Answered(chainHash, storedHash, h) && chainHash(h).value == storedHash(h).value
  }

  /** At height `h` the chain's hash is not the stored one. */
  predicate DifferAt(chainHash: nat -> Option<Hash>, storedHash: nat -> Result<Hash>, h: nat) {
    Answered(chainHash, storedHash, h) && chainHash(h).value != storedHash(h).value
  }

  /**
   * What the downward search started at height `h` returns: the first height,
   * going down, at which the chain's hash equals the stored one, or 0; a failed
   * request or a height without a valid block stops it with that error.
   */
  function CommonAncestor(chainHash: nat -> Option<Hash>, storedHash: nat -> Result<Hash>, h: nat): Result<nat>
    decreases h
  {
    match chainHash(h)
    case None => Err(JsonRpcError)
    case Some(ch) =>
      match storedHash(h)
      case Err(e) => Err(e)
      case Ok(dh) =>
        if ch == dh || h == 0 then Ok(h) else CommonAncestor(chainHash, storedHash, h - 1)
  }

  /**
   * The search from `h` fails only on a failed request or with the store's
   * error at some height at or below `h`; when it succeeds it returns a height
   * at or below `h` where the hashes agree (or 0, where both answered), and
   * the hashes differ at every height above it up to `h`.
   */
  lemma {:induction false} CommonAncestorSound(chainHash: nat -> Option<Hash>, storedHash: nat -> Result<Hash>, h: nat)
    ensures CommonAncestor(chainHash, storedHash, h).Err? ==>
      CommonAncestor(chainHash, storedHash, h).error == JsonRpcError ||
      exists g: nat :: g <= h && storedHash(g) == Err(CommonAncestor(chainHash, storedHash, h).error)
    ensures CommonAncestor(chainHash, storedHash, h).Ok? ==>
      var a := CommonAncestor(chainHash, storedHash, h).value;
      a <= h && ((a == 0 && Answered(chainHash, storedHash, 0)) || AgreeAt(chainHash, storedHash, a)) &&
      forall k :: a < k <= h ==> DifferAt(chainHash, storedHash, k)
    decreases h
  {
    if h > 0 && Answered(chainHash, storedHash, h) && chainHash(h).value != storedHash(h).value {
      CommonAncestorSound(chainHash, storedHash, h - 1);
    }
  }

  /**
   * When the store agrees with the chain at `k` and differs at every height
   * from `k + 1` up to `h`, the search from `h` returns `k`.
   */
  lemma {:induction false} CommonAncestorFindsHighestAgreement(
    chainHash: nat -> Option<Hash>, storedHash: nat -> Result<Hash>, k: nat, h: nat)
    requires k <= h
    requires AgreeAt(chainHash, storedHash, k)
    requires forall g :: k < g <= h ==> DifferAt(chainHash, storedHash, g)
    ensures CommonAncestor(chainHash, storedHash, h) == Ok(k)
    decreases h
  {
    if h > k {
      assert DifferAt(chainHash, storedHash, h);
      CommonAncestorFindsHighestAgreement(chainHash, storedHash, k, h - 1);
    }
  }

  /**
   * `Block.getHeightOfBestBlockCommonWithChain`: starting at the best valid
   * height, step down while the chain's hash and the stored hash differ and
   * the height is above 0.
   */
  method GetHeightOfBestBlockCommonWithChain(db: Database.Database, chain: Chain) returns (r: Result<nat>)
    ensures r == CommonAncestor(chain.blockHash, StoredHashes(db.blocks), Database.BestBlockHeight(db.blocks))
  {
    var best := Database.BestBlockHeight(db.blocks);
    r := SearchDown(chain.blockHash, StoredHashes(db.blocks), best);
  }

  /**
   * The loop of that search, over the node's `getblockhash` and the store's
   * `getBlockhashByHeight` as lookups from height to answer.
   */
  method SearchDown(chainHash: nat -> Option<Hash>, storedHash: nat -> Result<Hash>, best: nat) returns (r: Result<nat>)
    ensures r == CommonAncestor(chainHash, storedHash, best)
  {
    var next: nat := best;
    var ch := chainHash(next);
    if ch.None? {
      return Err(JsonRpcError);
    }
    var dh := storedHash(next);
    if dh.Err? {
      return Err(dh.error);
    }
    while ch.value != dh.value && next > 0
      invariant next <= best
      invariant ch == chainHash(next) && ch.Some?
      invariant dh == storedHash(next) && dh.Ok?
      invariant CommonAncestor(chainHash, storedHash, best) == CommonAncestor(chainHash, storedHash, next)
      decreases next
    {
      next := next - 1;
      ch := chainHash(next);
      if ch.None? {
        return Err(JsonRpcError);
      }
      dh := storedHash(next);
      if dh.Err? {
        return Err(dh.error);
      }
    }
    r := Ok(next);
  }

  /** `getBlockhashByHeight` on a table with one valid block per height reads that block's hash. */
  lemma StoredHashOfUniqueBlock(blocks: seq<Row<BlockData>>, h: nat, i: int)
    requires Database.UniqueValidHeights(blocks)
    requires 0 <= i < |blocks| && blocks[i].isValid && blocks[i].data.height == h
    ensures StoredHashes(blocks)(h).Ok? ==> StoredHashes(blocks)(h).value == blocks[i].data.blockhash
  {
    Database.BlockhashOfUniqueBlock(blocks, h, i);
  }

  // ---------------------------------------------------------------------------
  // Recovery from a fork
  // ---------------------------------------------------------------------------

  /**
   * After invalidating above the common ancestor, every valid block left at or
   * above it is the chain's: above it none is valid, and at it the search saw
   * the chain's hash, or it is the genesis block.
   */
  lemma RewoundStoreAgrees(blocks: seq<Row<BlockData>>, chain: Chain, a: nat)
    requires Database.UniqueValidHeights(blocks) && GenesisAgrees(blocks, chain)
    requires a == 0 || AgreeAt(chain.blockHash, StoredHashes(blocks), a)
    ensures Agrees(Database.InvalidatedAbove(blocks, a), chain, a)
    ensures Database.BestBlockHeight(Database.InvalidatedAbove(blocks, a)) == a
    ensures Database.UniqueValidHeights(Database.InvalidatedAbove(blocks, a))
    ensures GenesisAgrees(Database.InvalidatedAbove(blocks, a), chain)
  {
    var r := Database.InvalidatedAbove(blocks, a);
    forall i | 0 <= i < |r| && r[i].isValid && r[i].data.height >= a
      ensures chain.blockHash(r[i].data.height) == Some(r[i].data.blockhash)
    {
      assert blocks[i] == r[i];
      if a > 0 {
        StoredHashOfUniqueBlock(blocks, a, i);
      }
    }
    Database.InvalidateCapsBestHeight(blocks, a);
    Database.InvalidatePreservesUnique(blocks, a);
    if a > 0 {
      var i :| 0 <= i < |blocks| && Database.ValidAtHeight(a)(blocks[i]) && blocks[i].data.blockhash == StoredHashes(blocks)(a).value;
      assert r[i] == blocks[i];
    }
  }

  /**
   * The fork handler after its commit: find the common ancestor `a`, read the
   * branch `b` of the block there, add branch (a, b) and invalidate every
   * block above `a`. A failed lookup stops it before anything is written.
   */
  method RecoverFromFork(db: Database.Database, chain: Chain) returns (r: Result<nat>)
    requires db.Valid() && Database.UniqueValidHeights(db.blocks) && GenesisAgrees(db.blocks, chain)
    modifies db`branches, db`nextBranchSerial, db`blocks
    ensures db.Valid()
    ensures r.Err? ==> r.error == JsonRpcError || r.error == DbError
    ensures r.Err? ==> db.blocks == old(db.blocks) && db.branches == old(db.branches)
    ensures (forall i :: 0 <= i < |old(db.blocks)| && old(db.blocks)[i].isValid ==> old(db.blocks)[i].data.branchSerial.None?) ==>
      r.Err?
    ensures r.Ok? ==>
      r == CommonAncestor(chain.blockHash, StoredHashes(old(db.blocks)), Database.BestBlockHeight(old(db.blocks))) &&
      Database.BlockBranchSerialByHeight(old(db.blocks), r.value).Ok? &&
      db.branches == old(db.branches) +
        [BranchRow(old(db.nextBranchSerial), r.value, Database.BlockBranchSerialByHeight(old(db.blocks), r.value).value)] &&
      Database.BestBranchSerial(db.branches) == Some(old(db.nextBranchSerial)) &&
      db.blocks == Database.InvalidatedAbove(old(db.blocks), r.value)
    ensures Database.UniqueValidHeights(db.blocks) && GenesisAgrees(db.blocks, chain)
    ensures r.Ok? ==>
      Agrees(db.blocks, chain, r.value) && Database.BestBlockHeight(db.blocks) == r.value &&
      DbHeight(db.blocks, Some(r.value)) == r.value
  {
    var a := GetHeightOfBestBlockCommonWithChain(db, chain);
    CommonAncestorSound(chain.blockHash, StoredHashes(db.blocks), Database.BestBlockHeight(db.blocks));
    if a.Err? {
      return Err(a.error);
    }
    var b := Database.BlockBranchSerialByHeight(db.blocks, a.value);
    if b.Err? {
      return Err(b.error);
    }
    Rewind(db, chain, a.value, b.value);
    r := a;
  }

  /**
   * The writes of the fork handler: add branch (a, b), then invalidate every
   * block above `a`, where the store agrees with the chain at `a`.
   */
  method Rewind(db: Database.Database, chain: Chain, a: nat, b: nat)
    requires db.Valid() && Database.UniqueValidHeights(db.blocks) && GenesisAgrees(db.blocks, chain)
    requires a == 0 || AgreeAt(chain.blockHash, StoredHashes(db.blocks), a)
    modifies db`branches, db`nextBranchSerial, db`blocks
    ensures db.Valid()
    ensures db.branches == old(db.branches) + [BranchRow(old(db.nextBranchSerial), a, b)]
    ensures Database.BestBranchSerial(db.branches) == Some(old(db.nextBranchSerial))
    ensures db.blocks == Database.InvalidatedAbove(old(db.blocks), a)
    ensures Database.UniqueValidHeights(db.blocks) && GenesisAgrees(db.blocks, chain)
    ensures Agrees(db.blocks, chain, a) && Database.BestBlockHeight(db.blocks) == a
  {
    var _ := db.AddNewBranch(a, b);
    RewoundStoreAgrees(db.blocks, chain, a);
    db.InvalidateBlocksHigherThan(a);
  }

  // ---------------------------------------------------------------------------
  // Importing a block
  // ---------------------------------------------------------------------------

  /** `scriptPubKey.reqSigs || null` */
  function ReqSigs(n: nat): (r: Option<nat>)
    ensures (if r.Some? then r.value else 0) == n
    ensures r != Some(0)
  {
    if n == 0 then None else Some(n)
  }

  /** `vin.scriptSig && vin.scriptSig.asm || null` */
  function ScriptAsm(v: ChainVin): (r: Option<string>)
    ensures (if r.Some? then r.value else "") == (if v.scriptSig.Some? then v.scriptSig.value.asm else "")
    ensures r != Some("")
  {
    if v.scriptSig.None? then None else OrNull(v.scriptSig.value.asm)
  }

  /** `vin.scriptSig && vin.scriptSig.hex || null` */
  function ScriptHex(v: ChainVin): (r: Option<string>)
    ensures (if r.Some? then r.value else "") == (if v.scriptSig.Some? then v.scriptSig.value.hex else "")
    ensures r != Some("")
  {
    if v.scriptSig.None? then None else OrNull(v.scriptSig.value.hex)
  }

  /** The output row saved for a chain output of the transaction with this serial: unspent, no spender. */
  function OutputRowData(txSerial: nat, v: ChainVout): OutputData {
    OutputData(txSerial, v.n, v.value, ReqSigs(v.reqSigs), v.script, None, false)
  }

  /** The sum of the transaction's output values, in satoshis. */
  function SumVout(vout: seq<ChainVout>): int {
    if |vout| == 0 then 0 else SumVout(vout[..|vout| - 1]) + vout[|vout| - 1].value
  }

  /** The sum of the values of the outputs that these input rows spend. */
  function SumOutValues(rows: seq<Row<InputData>>): int {
    if |rows| == 0 then 0 else SumOutValues(rows[..|rows| - 1]) + rows[|rows| - 1].data.outValue
  }

  /** Two output tables with the same rows up to the spent flags and spender. */
  ghost predicate OutputKeysPreserved(a: seq<Row<OutputData>>, b: seq<Row<OutputData>>) {
    |a| == |b| &&
    forall i :: 0 <= i < |a| ==>
      b[i].serial == a[i].serial && b[i].isValid == a[i].isValid && b[i].data.txSerial == a[i].data.txSerial &&
      b[i].data.vout == a[i].data.vout && b[i].data.value == a[i].data.value
  }

  /** Marking an output spent keeps every row's serial, validity, transaction, position and value. */
  lemma SpendingKeepsKeys(a: seq<Row<OutputData>>, outSerial: nat, inputSerial: nat)
    ensures OutputKeysPreserved(a, Update(a, Database.ValidSerial(Some(outSerial)), Database.MarkSpent(inputSerial)))
  {
  }

  /** An input row stays resolved when the output it records is marked spent by it. */
  lemma SpendingKeepsResolved(txs: seq<Row<TxData>>, a: seq<Row<OutputData>>, row: Row<InputData>, v: ChainVin)
    requires row.isValid
    requires Database.OutputSerial(txs, a, v.txid, v.vout) == Ok(row.data.outOutputSerial)
    requires Database.OutputValue(a, row.data.outOutputSerial) == Ok(row.data.outValue)
    ensures OutputKeysPreserved(a, Update(a, Database.ValidSerial(Some(row.data.outOutputSerial)), Database.MarkSpent(row.serial)))
    ensures Resolved(txs, Update(a, Database.ValidSerial(Some(row.data.outOutputSerial)), Database.MarkSpent(row.serial)),
                     row, row.data.txSerial, row.data.vin, v)
  {
    var b := Update(a, Database.ValidSerial(Some(row.data.outOutputSerial)), Database.MarkSpent(row.serial));
    SpendingKeepsKeys(a, row.data.outOutputSerial, row.serial);
    LookupsIgnoreSpending(txs, a, b, v.txid, v.vout, row.data.outOutputSerial);
  }

  /** Marking outputs spent changes neither which output `getOutputSerial` finds nor the value `getOutputValue` reads. */
  lemma LookupsIgnoreSpending(txs: seq<Row<TxData>>, a: seq<Row<OutputData>>, b: seq<Row<OutputData>>,
                              txid: Hash, vout: nat, serial: nat)
    requires OutputKeysPreserved(a, b)
    ensures Database.OutputSerial(txs, a, txid, vout) == Database.OutputSerial(txs, b, txid, vout)
    ensures Database.OutputValue(a, serial) == Database.OutputValue(b, serial)
  {
    var p := Database.ValidOutputOf(txs, txid, vout);
    assert forall i :: 0 <= i < |a| ==> (p(a[i]) <==> p(b[i]));
    assert forall i :: Database.OnlyMatch(a, p, i) <==> Database.OnlyMatch(b, p, i);
    var q := Database.ValidSerial<OutputData>(Some(serial));
    assert forall i :: 0 <= i < |a| ==> (q(a[i]) <==> q(b[i]));
    assert forall i :: Database.OnlyMatch(a, q, i) <==> Database.OnlyMatch(b, q, i);
  }

  /**
   * The output rows saved for a transaction's outputs, in order: valid, under
   * consecutive serials from `first`, unspent, with each output's position,
   * value and script.
   */
  function OutputRows(first: nat, txSerial: nat, vout: seq<ChainVout>): seq<Row<OutputData>> {
    seq(|vout|, m requires 0 <= m < |vout| => Row(first + m, true, OutputRowData(txSerial, vout[m])))
  }

  lemma OutputRowsAppend(first: nat, txSerial: nat, vout: seq<ChainVout>, j: nat)
    requires j < |vout|
    ensures OutputRows(first, txSerial, vout[..j + 1]) ==
      OutputRows(first, txSerial, vout[..j]) + [Row(first + j, true, OutputRowData(txSerial, vout[j]))]
  {
  }

  /** The input row saved for chain input `v` at position `vin`, spending output `outSerial` worth `outValue`. */
  function InputRowData(txSerial: nat, vin: nat, outSerial: nat, outValue: int, v: ChainVin): InputData {
    InputData(txSerial, vin, outSerial, outValue, v.sequence, ScriptAsm(v), ScriptHex(v), v.txinwitness)
  }

  /**
   * The input rows saved for a transaction's inputs, in order: valid, under
   * consecutive serials from `first`, each with its input's position,
   * sequence, script and witness.
   */
  ghost predicate InputRowsOf(rows: seq<Row<InputData>>, first: nat, txSerial: nat, vin: seq<ChainVin>) {
    |rows| <= |vin| &&
    forall j :: 0 <= j < |rows| ==>
      rows[j] == Row(first + j, true, InputRowData(txSerial, j, rows[j].data.outOutputSerial, rows[j].data.outValue, vin[j]))
  }

  lemma InputRowsOfAppend(rows: seq<Row<InputData>>, row: Row<InputData>, first: nat, txSerial: nat, vin: seq<ChainVin>)
    requires InputRowsOf(rows, first, txSerial, vin) && |rows| < |vin|
    requires row == Row(first + |rows|, true, InputRowData(txSerial, |rows|, row.data.outOutputSerial, row.data.outValue, vin[|rows|]))
    ensures InputRowsOf(rows + [row], first, txSerial, vin)
  {
    var all := rows + [row];
    forall j | 0 <= j < |all|
      ensures all[j] == Row(first + j, true, InputRowData(txSerial, j, all[j].data.outOutputSerial, all[j].data.outValue, vin[j]))
    {
      if j < |rows| {
        assert all[j] == rows[j];
      }
    }
  }

  /**
   * The output table after the input rows `rows` were saved in order: each
   * marks the valid output with the serial it records as spent by itself.
   */
  function MarkSpentBy(outputs: seq<Row<OutputData>>, rows: seq<Row<InputData>>): seq<Row<OutputData>>
    decreases |rows|
  {
    if |rows| == 0 then outputs
    else
      var last := rows[|rows| - 1];
      Update(MarkSpentBy(outputs, rows[..|rows| - 1]),
             Database.ValidSerial(Some(last.data.outOutputSerial)), Database.MarkSpent(last.serial))
  }

  lemma MarkSpentByAppend(outputs: seq<Row<OutputData>>, rows: seq<Row<InputData>>, row: Row<InputData>)
    ensures MarkSpentBy(outputs, rows + [row]) ==
      Update(MarkSpentBy(outputs, rows), Database.ValidSerial(Some(row.data.outOutputSerial)), Database.MarkSpent(row.serial))
  {
    assert (rows + [row])[..|rows|] == rows;
  }

  /**
   * Saving inputs marks spent every valid output one of them records, by an
   * input that records it, and leaves every other output row as it was.
   */
  lemma {:induction false} MarkSpentByMarks(outputs: seq<Row<OutputData>>, rows: seq<Row<InputData>>)
    ensures |MarkSpentBy(outputs, rows)| == |outputs|
    ensures forall i, j ::
      0 <= i < |outputs| && 0 <= j < |rows| && outputs[i].isValid && outputs[i].serial == rows[j].data.outOutputSerial ==>
        MarkSpentBy(outputs, rows)[i].data.isSpent &&
        exists k :: 0 <= k < |rows| && rows[k].data.outOutputSerial == outputs[i].serial &&
          MarkSpentBy(outputs, rows)[i].data.spentByInputSerial == Some(rows[k].serial)
    ensures forall i ::
      0 <= i < |outputs| && (!outputs[i].isValid || forall j :: 0 <= j < |rows| ==> rows[j].data.outOutputSerial != outputs[i].serial) ==>
        MarkSpentBy(outputs, rows)[i] == outputs[i]
    decreases |rows|
  {
    if |rows| > 0 {
      var init := rows[..|rows| - 1];
      var last := rows[|rows| - 1];
      MarkSpentByMarks(outputs, init);
      MarkSpentByKeepsKeys(outputs, init);
      var before := MarkSpentBy(outputs, init);
      var after := MarkSpentBy(outputs, rows);
      assert after == Update(before, Database.ValidSerial(Some(last.data.outOutputSerial)), Database.MarkSpent(last.serial));
      assert forall j :: 0 <= j < |init| ==> init[j] == rows[j];
      forall i, j | 0 <= i < |outputs| && 0 <= j < |rows| && outputs[i].isValid &&
        outputs[i].serial == rows[j].data.outOutputSerial
        ensures after[i].data.isSpent &&
          exists k :: 0 <= k < |rows| && rows[k].data.outOutputSerial == outputs[i].serial &&
            after[i].data.spentByInputSerial == Some(rows[k].serial)
      {
        assert before[i].serial == outputs[i].serial && before[i].isValid;
        if outputs[i].serial == last.data.outOutputSerial {
          assert after[i].data.spentByInputSerial == Some(rows[|rows| - 1].serial);
        } else {
          assert init[j] == rows[j];
          var k :| 0 <= k < |init| && init[k].data.outOutputSerial == outputs[i].serial &&
            before[i].data.spentByInputSerial == Some(init[k].serial);
          assert rows[k] == init[k];
        }
      }
    }
  }

  /** Marking outputs spent keeps every row's serial, validity, transaction, position and value. */
  lemma {:induction false} MarkSpentByKeepsKeys(outputs: seq<Row<OutputData>>, rows: seq<Row<InputData>>)
    ensures OutputKeysPreserved(outputs, MarkSpentBy(outputs, rows))
    decreases |rows|
  {
    if |rows| > 0 {
      var last := rows[|rows| - 1];
      MarkSpentByKeepsKeys(outputs, rows[..|rows| - 1]);
      SpendingKeepsKeys(MarkSpentBy(outputs, rows[..|rows| - 1]), last.data.outOutputSerial, last.serial);
    }
  }

  /** One pass of that loop: a new unspent output, saved with its address rows. */
  method ImportOutput(db: Database.Database, txSerial: nat, isCoinbase: bool, v: ChainVout, net: Network)
    requires db.Valid()
    modifies db`outputs, db`nextOutputSerial, db`addresses
    ensures db.Valid()
    ensures db.nextOutputSerial == old(db.nextOutputSerial) + 1
    ensures db.outputs == old(db.outputs) + [Row(old(db.nextOutputSerial), true, OutputRowData(txSerial, v))]
  {
    var output := new Output.Output(txSerial, isCoinbase, v.n, v.value, v.addresses, ReqSigs(v.reqSigs), v.script);
    output.Save(db, net);
  }

  /**
   * The loop over a transaction's outputs: each is saved unspent, and the
   * output total accumulates its value.
   */
  method ImportOutputs(db: Database.Database, txSerial: nat, isCoinbase: bool, vout: seq<ChainVout>, net: Network)
    returns (total: int)
    requires db.Valid()
    modifies db`outputs, db`nextOutputSerial, db`addresses
    ensures db.Valid()
    ensures total == SumVout(vout)
    ensures db.nextOutputSerial == old(db.nextOutputSerial) + |vout|
    ensures db.outputs == old(db.outputs) + OutputRows(old(db.nextOutputSerial), txSerial, vout)
  {
    total := 0;
    for j := 0 to |vout|
      invariant db.Valid()
      invariant total == SumVout(vout[..j])
      invariant db.nextOutputSerial == old(db.nextOutputSerial) + j
      invariant db.outputs == old(db.outputs) + OutputRows(old(db.nextOutputSerial), txSerial, vout[..j])
    {
      var v := vout[j];
      ImportOutput(db, txSerial, isCoinbase, v, net);
      OutputRowsAppend(old(db.nextOutputSerial), txSerial, vout, j);
      AppendAssoc(old(db.outputs), OutputRows(old(db.nextOutputSerial), txSerial, vout[..j]),
                  Row(old(db.nextOutputSerial) + j, true, OutputRowData(txSerial, v)));
      assert vout[..j + 1][..j] == vout[..j];
      total := total + v.value;
    }
    assert vout[..|vout|] == vout;
  }

  /**
   * An input row of the transaction with this serial, at position `vin`,
   * records the one valid output that (txid, vout) names and that output's value.
   */
  ghost predicate Resolved(txs: seq<Row<TxData>>, outputs: seq<Row<OutputData>>, row: Row<InputData>,
                           txSerial: nat, vin: nat, v: ChainVin) {
    row.isValid && row.data.txSerial == txSerial && row.data.vin == vin &&
    Database.OutputSerial(txs, outputs, v.txid, v.vout) == Ok(row.data.outOutputSerial) &&
    Database.OutputValue(outputs, row.data.outOutputSerial) == Ok(row.data.outValue)
  }

  /** The input row at position `j` of `rows` is resolved against the chain input at `j`. */
  ghost predicate ResolvedAt(txs: seq<Row<TxData>>, outputs: seq<Row<OutputData>>, rows: seq<Row<InputData>>,
                             j: int, txSerial: nat, vin: seq<ChainVin>) {
    0 <= j < |rows| && j < |vin| && Resolved(txs, outputs, rows[j], txSerial, j, vin[j])
  }

  /** Every saved input row of the transaction is resolved against its chain input. */
  ghost predicate AllResolved(txs: seq<Row<TxData>>, outputs: seq<Row<OutputData>>, rows: seq<Row<InputData>>,
                              txSerial: nat, vin: seq<ChainVin>) {
    |rows| <= |vin| && forall j :: 0 <= j < |rows| ==> ResolvedAt(txs, outputs, rows, j, txSerial, vin)
  }

  lemma AllResolvedIgnoresSpending(txs: seq<Row<TxData>>, a: seq<Row<OutputData>>, b: seq<Row<OutputData>>,
                                   rows: seq<Row<InputData>>, txSerial: nat, vin: seq<ChainVin>)
    requires OutputKeysPreserved(a, b) && AllResolved(txs, a, rows, txSerial, vin)
    ensures AllResolved(txs, b, rows, txSerial, vin)
  {
    forall j | 0 <= j < |rows| ensures ResolvedAt(txs, b, rows, j, txSerial, vin) {
      assert ResolvedAt(txs, a, rows, j, txSerial, vin);
      LookupsIgnoreSpending(txs, a, b, vin[j].txid, vin[j].vout, rows[j].data.outOutputSerial);
    }
  }

  lemma AllResolvedAppend(txs: seq<Row<TxData>>, outputs: seq<Row<OutputData>>, rows: seq<Row<InputData>>,
                          row: Row<InputData>, txSerial: nat, vin: seq<ChainVin>)
    requires AllResolved(txs, outputs, rows, txSerial, vin) && |rows| < |vin|
    requires Resolved(txs, outputs, row, txSerial, |rows|, vin[|rows|])
    ensures AllResolved(txs, outputs, rows + [row], txSerial, vin)
  {
    var all := rows + [row];
    forall j | 0 <= j < |all| ensures ResolvedAt(txs, outputs, all, j, txSerial, vin) {
      if j < |rows| {
        assert ResolvedAt(txs, outputs, rows, j, txSerial, vin);
        assert all[j] == rows[j];
      }
    }
  }

  lemma OutputKeysPreservedTrans(a: seq<Row<OutputData>>, b: seq<Row<OutputData>>, c: seq<Row<OutputData>>)
    requires OutputKeysPreserved(a, b) && OutputKeysPreserved(b, c)
    ensures OutputKeysPreserved(a, c)
  {
  }

  lemma AppendAssoc<T>(a: seq<T>, b: seq<T>, x: T)
    ensures (a + b) + [x] == a + (b + [x])
  {
  }

  /**
   * The `saveInput` call of that pass, for an input whose spent output and
   * value are already found: the row stays resolved although its output is
   * now marked spent.
   */
  method SaveResolvedInput(db: Database.Database, data: InputData, ghost v: ChainVin) returns (r: Result<int>)
    requires db.Valid()
    requires Database.OutputSerial(db.txs, db.outputs, v.txid, v.vout) == Ok(data.outOutputSerial)
    requires Database.OutputValue(db.outputs, data.outOutputSerial) == Ok(data.outValue)
    modifies db`inputs, db`nextInputSerial, db`outputs
    ensures db.Valid()
    ensures db.nextInputSerial == old(db.nextInputSerial) + 1
    ensures db.inputs == old(db.inputs) + [Row(old(db.nextInputSerial), true, data)]
    ensures db.outputs == Update(old(db.outputs), Database.ValidSerial(Some(data.outOutputSerial)),
                                 Database.MarkSpent(old(db.nextInputSerial)))
    ensures OutputKeysPreserved(old(db.outputs), db.outputs)
    ensures r.Err? ==> r.error == DbError
    ensures r.Ok? ==> r.value == data.outValue && Resolved(db.txs, db.outputs, Row(old(db.nextInputSerial), true, data), data.txSerial, data.vin, v)
  {
    ghost var before := db.outputs;
    ghost var row := Row(db.nextInputSerial, true, data);
    var saved := db.SaveInput(data);
    SpendingKeepsResolved(db.txs, before, row, v);
    r := if saved.Err? then Err(saved.error) else Ok(data.outValue);
  }

  /**
   * One pass of the loop over a non-coinbase transaction's inputs: find the
   * one valid output the input spends and that output's value, and save the
   * input, which marks the output spent.
   */
  method ImportInput(db: Database.Database, txSerial: nat, vin: nat, v: ChainVin) returns (r: Result<int>)
    requires db.Valid()
    modifies db`inputs, db`nextInputSerial, db`outputs
    ensures db.Valid()
    ensures |db.inputs| >= old(|db.inputs|) && db.inputs[..old(|db.inputs|)] == old(db.inputs)
    ensures OutputKeysPreserved(old(db.outputs), db.outputs)
    ensures r.Err? ==> r.error == DbError
    ensures r.Ok? ==>
      |db.inputs| == old(|db.inputs|) + 1 && db.nextInputSerial == old(db.nextInputSerial) + 1 &&
      var s := db.inputs[old(|db.inputs|)].data.outOutputSerial;
      db.inputs == old(db.inputs) + [Row(old(db.nextInputSerial), true, InputRowData(txSerial, vin, s, r.value, v))] &&
      db.outputs == Update(old(db.outputs), Database.ValidSerial(Some(s)), Database.MarkSpent(old(db.nextInputSerial))) &&
      Resolved(db.txs, db.outputs, db.inputs[old(|db.inputs|)], txSerial, vin, v)
  {
    var outSerial := Database.OutputSerial(db.txs, db.outputs, v.txid, v.vout);
    if outSerial.Err? {
      return Err(outSerial.error);
    }
    var outValue := Database.OutputValue(db.outputs, outSerial.value);
    if outValue.Err? {
      return Err(outValue.error);
    }
    var data := InputData(txSerial, vin, outSerial.value, outValue.value, v.sequence, ScriptAsm(v), ScriptHex(v), v.txinwitness);
    r := SaveResolvedInput(db, data, v);
    assert db.inputs[..old(|db.inputs|)] == old(db.inputs);
  }

  /**
   * One pass of that loop as its invariant sees it: after the rows `done`
   * of the earlier inputs, saved from serial `first` on over the outputs
   * `outputs0`, the next input is saved resolved and marks its output spent,
   * and the rows saved so far stay resolved.
   */
  method ImportNextInput(db: Database.Database, txSerial: nat, vin: seq<ChainVin>, i: nat,
                         ghost prefix: seq<Row<InputData>>, ghost done: seq<Row<InputData>>,
                         ghost first: nat, ghost outputs0: seq<Row<OutputData>>) returns (r: Result<int>)
    requires db.Valid() && |done| == i < |vin| && db.inputs == prefix + done
    requires db.nextInputSerial == first + i && InputRowsOf(done, first, txSerial, vin)
    requires db.outputs == MarkSpentBy(outputs0, done)
    requires AllResolved(db.txs, db.outputs, done, txSerial, vin)
    modifies db`inputs, db`nextInputSerial, db`outputs
    ensures db.Valid()
    ensures |db.inputs| >= old(|db.inputs|) && db.inputs[..old(|db.inputs|)] == old(db.inputs)
    ensures OutputKeysPreserved(old(db.outputs), db.outputs)
    ensures r.Err? ==> r.error == DbError
    ensures r.Ok? ==>
      |db.inputs| == old(|db.inputs|) + 1 && db.inputs == prefix + (done + [db.inputs[|db.inputs| - 1]]) &&
      db.inputs[|db.inputs| - 1].data.outValue == r.value &&
      db.nextInputSerial == first + i + 1 &&
      InputRowsOf(done + [db.inputs[|db.inputs| - 1]], first, txSerial, vin) &&
      db.outputs == MarkSpentBy(outputs0, done + [db.inputs[|db.inputs| - 1]]) &&
      AllResolved(db.txs, db.outputs, done + [db.inputs[|db.inputs| - 1]], txSerial, vin)
  {
    ghost var before := db.outputs;
    r := ImportInput(db, txSerial, i, vin[i]);
    if r.Ok? {
      ghost var row := db.inputs[|prefix + done|];
      AllResolvedIgnoresSpending(db.txs, before, db.outputs, done, txSerial, vin);
      AllResolvedAppend(db.txs, db.outputs, done, row, txSerial, vin);
      AppendAssoc(prefix, done, row);
      InputRowsOfAppend(done, row, first, txSerial, vin);
      MarkSpentByAppend(outputs0, done, row);
    }
  }

  /**
   * The loop over a non-coinbase transaction's inputs: each input row is
   * saved against the output it spends, which it marks spent, and the input
   * total accumulates the values of those outputs.
   */
  method ImportInputs(db: Database.Database, txSerial: nat, vin: seq<ChainVin>) returns (r: Result<int>)
    requires db.Valid()
    modifies db`inputs, db`nextInputSerial, db`outputs
    ensures db.Valid()
    ensures |db.inputs| >= old(|db.inputs|) && db.inputs[..old(|db.inputs|)] == old(db.inputs)
    ensures OutputKeysPreserved(old(db.outputs), db.outputs)
    ensures r.Err? ==> r.error == DbError
    ensures r.Ok? ==>
      |db.inputs| == old(|db.inputs|) + |vin| && db.nextInputSerial == old(db.nextInputSerial) + |vin| &&
      r.value == SumOutValues(db.inputs[old(|db.inputs|)..]) &&
      InputRowsOf(db.inputs[old(|db.inputs|)..], old(db.nextInputSerial), txSerial, vin) &&
      db.outputs == MarkSpentBy(old(db.outputs), db.inputs[old(|db.inputs|)..]) &&
      AllResolved(db.txs, db.outputs, db.inputs[old(|db.inputs|)..], txSerial, vin)
  {
    ghost var prefix := db.inputs;
    ghost var done: seq<Row<InputData>> := [];
    var total := 0;
    for i := 0 to |vin|
      invariant db.Valid()
      invariant |done| == i && db.inputs == prefix + done
      invariant db.nextInputSerial == old(db.nextInputSerial) + i
      invariant InputRowsOf(done, old(db.nextInputSerial), txSerial, vin)
      invariant db.outputs == MarkSpentBy(old(db.outputs), done)
      invariant total == SumOutValues(done)
      invariant AllResolved(db.txs, db.outputs, done, txSerial, vin)
    {
      ghost var before := db.outputs;
      var value := ImportNextInput(db, txSerial, vin, i, prefix, done, old(db.nextInputSerial), old(db.outputs));
      if value.Err? {
        MarkSpentByKeepsKeys(old(db.outputs), done);
        OutputKeysPreservedTrans(old(db.outputs), before, db.outputs);
        assert db.inputs[..|prefix|] == prefix;
        return Err(value.error);
      }
      ghost var row := db.inputs[|db.inputs| - 1];
      assert (done + [row])[..|done|] == done;
      assert SumOutValues(done + [row]) == SumOutValues(done) + value.value;
      done := done + [row];
      total := total + value.value;
    }
    assert db.inputs[|prefix|..] == done;
    assert |db.inputs| == |prefix| + |vin|;
    MarkSpentByKeepsKeys(old(db.outputs), done);
    r := Ok(total);
  }

  /** Setting a fee leaves every saved input row resolved. */
  lemma AllResolvedIgnoresFees(txs: seq<Row<TxData>>, p: Row<TxData> -> bool, fee: int, outputs: seq<Row<OutputData>>,
                               rows: seq<Row<InputData>>, txSerial: nat, vin: seq<ChainVin>)
    requires AllResolved(txs, outputs, rows, txSerial, vin)
    ensures AllResolved(Update(txs, p, Database.SetFee(fee)), outputs, rows, txSerial, vin)
  {
    forall j | 0 <= j < |rows| ensures ResolvedAt(Update(txs, p, Database.SetFee(fee)), outputs, rows, j, txSerial, vin) {
      assert ResolvedAt(txs, outputs, rows, j, txSerial, vin);
      Database.OutputSerialIgnoresFees(txs, p, fee, outputs, vin[j].txid, vin[j].vout);
    }
  }

  /**
   * The two assertions on the first transaction of a block: its first input
   * has a coinbase, and it is its only input. With no input at all, reading
   * the coinbase of the missing first input is a TypeError.
   */
  function CoinbaseShape(vin: seq<ChainVin>): (o: Outcome)
    ensures o.Pass? <==> |vin| == 1 && vin[0].coinbase != ""
    ensures o.Fail? ==> o.error == (if |vin| == 0 then TypeError else AssertionError)
  {
    if |vin| == 0 then Fail(TypeError)
    else if vin[0].coinbase == "" then Fail(AssertionError)
    else if |vin| != 1 then Fail(AssertionError)
    else Pass
  }

  /**
   * The tail of the loop body for a transaction that is not its block's
   * first: save its inputs, then set its fee, the input total minus
   * `totalOut`, on its row, which is the last of the table.
   */
  method ImportSpends(db: Database.Database, dbTx: Transaction.Transaction, vin: seq<ChainVin>, totalOut: int,
                      ghost txsBefore: seq<Row<TxData>>)
    returns (o: Outcome)
    requires db.Valid() && dbTx.txSerial.Some?
    requires FreshSerial(txsBefore, dbTx.txSerial.value)
    requires db.txs == txsBefore + [Row(dbTx.txSerial.value, true, dbTx.Data())]
    modifies db`txs, db`outputs, db`inputs, db`nextInputSerial, dbTx`fee
    ensures db.Valid()
    ensures o.Fail? ==> o.error == DbError
    ensures |db.inputs| >= old(|db.inputs|) && |db.outputs| == old(|db.outputs|)
    ensures o.Pass? ==>
      db.txs == txsBefore +
        [Row(dbTx.txSerial.value, true, dbTx.Data().(fee := Some(SumOutValues(db.inputs[old(|db.inputs|)..]) - totalOut)))]
    ensures o.Pass? ==>
      |db.inputs| == old(|db.inputs|) + |vin| && db.nextInputSerial == old(db.nextInputSerial) + |vin| &&
      InputRowsOf(db.inputs[old(|db.inputs|)..], old(db.nextInputSerial), dbTx.txSerial.value, vin) &&
      db.outputs == MarkSpentBy(old(db.outputs), db.inputs[old(|db.inputs|)..]) &&
      AllResolved(db.txs, db.outputs, db.inputs[old(|db.inputs|)..], dbTx.txSerial.value, vin)
  {
    var serial := dbTx.txSerial.value;
    var totalIn := ImportInputs(db, serial, vin);
    if totalIn.Err? {
      return Fail(totalIn.error);
    }
    o := SaveFee(db, dbTx, totalIn.value - totalOut, txsBefore, db.inputs[old(|db.inputs|)..], vin);
  }

  /**
   * The fee update at the end of that tail: the transaction's row, the last
   * of the table, gets the fee, and the saved input rows stay resolved.
   */
  method SaveFee(db: Database.Database, dbTx: Transaction.Transaction, fee: int, ghost txsBefore: seq<Row<TxData>>,
                 ghost rows: seq<Row<InputData>>, ghost vin: seq<ChainVin>)
    returns (o: Outcome)
    requires db.Valid() && dbTx.txSerial.Some?
    requires FreshSerial(txsBefore, dbTx.txSerial.value)
    requires db.txs == txsBefore + [Row(dbTx.txSerial.value, true, dbTx.Data())]
    requires AllResolved(db.txs, db.outputs, rows, dbTx.txSerial.value, vin)
    modifies db`txs, dbTx`fee
    ensures db.Valid()
    ensures o.Fail? ==> o.error == DbError
    ensures db.txs == txsBefore + [Row(dbTx.txSerial.value, true, old(dbTx.Data()).(fee := Some(fee)))]
    ensures dbTx.fee == Some(fee) && dbTx.Data() == old(dbTx.Data())
    ensures AllResolved(db.txs, db.outputs, rows, dbTx.txSerial.value, vin)
  {
    var serial := dbTx.txSerial.value;
    ghost var txsSaved := db.txs;
    o := dbTx.UpdateFee(db, fee);
    Database.UpdateFreshRow(txsBefore, serial, old(dbTx.Data()), Database.SetFee(fee));
    AllResolvedIgnoresFees(txsSaved, Database.ValidSerial(Some(serial)), fee, db.outputs, rows, serial, vin);
  }

  /**
   * The head of the loop body: save the transaction, without a fee, and then
   * its outputs; the result is the output total.
   */
  method SaveTransactionAndOutputs(db: Database.Database, blockSerial: nat, tx: ChainTx, first: bool, net: Network)
    returns (dbTx: Transaction.Transaction, totalOut: int)
    requires db.Valid()
    modifies db`txs, db`nextTxSerial, db`outputs, db`nextOutputSerial, db`addresses
    ensures db.Valid() && fresh(dbTx)
    ensures dbTx.txSerial == Some(old(db.nextTxSerial)) && FreshSerial(old(db.txs), old(db.nextTxSerial))
    ensures dbTx.Data() == TxData(blockSerial, tx.txid, tx.hash, tx.body, first, None)
    ensures db.txs == old(db.txs) + [Row(old(db.nextTxSerial), true, dbTx.Data())]
    ensures totalOut == SumVout(tx.vout)
    ensures db.nextOutputSerial == old(db.nextOutputSerial) + |tx.vout|
    ensures db.outputs == old(db.outputs) + OutputRows(old(db.nextOutputSerial), old(db.nextTxSerial), tx.vout)
  {
    dbTx := new Transaction.Transaction(blockSerial, tx, first);
    dbTx.Save(db);
    totalOut := ImportOutputs(db, dbTx.txSerial.value, first, tx.vout, net);
  }

  /**
   * The body of the loop over a block's transactions: save the transaction,
   * its outputs, then either the coinbase on the block (first transaction) or
   * its inputs and its fee, the input total minus the output total.
   */
  method ImportTransaction(db: Database.Database, block: Block.Block, tx: ChainTx, first: bool, net: Network)
    returns (o: Outcome)
    requires db.Valid() && block.blockSerial.Some?
    modifies db`txs, db`nextTxSerial, db`outputs, db`nextOutputSerial, db`addresses
    modifies db`inputs, db`nextInputSerial, db`blocks, block`sequence, block`coinbase
    ensures db.Valid()
    ensures o.Fail? ==> o.error == TypeError || o.error == AssertionError || o.error == DbError
    ensures first && CoinbaseShape(tx.vin).Fail? ==> o == CoinbaseShape(tx.vin) && db.Tables() == old(db.Tables())
    ensures !first ==> db.blocks == old(db.blocks)
    ensures first && CoinbaseShape(tx.vin).Pass? ==>
      db.blocks == Update(old(db.blocks), Database.ValidBlockhash(block.blockhash),
                          Database.SetCoinbase(tx.vin[0].sequence, tx.vin[0].coinbase))
    ensures o.Pass? ==> |db.outputs| == old(|db.outputs|) + |tx.vout|
    ensures o.Pass? ==> |db.inputs| >= old(|db.inputs|)
    ensures o.Pass? ==>
      db.txs == old(db.txs) + [Row(old(db.nextTxSerial), true, TxData(block.blockSerial.value, tx.txid, tx.hash, tx.body, first,
        if first then None else Some(SumOutValues(db.inputs[old(|db.inputs|)..]) - SumVout(tx.vout))))] &&
      db.outputs == MarkSpentBy(old(db.outputs) + OutputRows(old(db.nextOutputSerial), old(db.nextTxSerial), tx.vout),
                                db.inputs[old(|db.inputs|)..])
    ensures first ==> db.inputs == old(db.inputs)
    ensures o.Pass? && !first ==>
      |db.inputs| == old(|db.inputs|) + |tx.vin| &&
      InputRowsOf(db.inputs[old(|db.inputs|)..], old(db.nextInputSerial), old(db.nextTxSerial), tx.vin) &&
      AllResolved(db.txs, db.outputs, db.inputs[old(|db.inputs|)..], old(db.nextTxSerial), tx.vin)
  {
    if first {
      o := ImportCoinbaseTransaction(db, block, tx, net);
    } else {
      o := ImportRegularTransaction(db, block.blockSerial.value, tx, net);
    }
  }

  /**
   * That body for the block's first transaction: its one input must carry a
   * coinbase script, which is recorded on the block instead of as an input.
   */
  method ImportCoinbaseTransaction(db: Database.Database, block: Block.Block, tx: ChainTx, net: Network)
    returns (o: Outcome)
    requires db.Valid() && block.blockSerial.Some?
    modifies db`txs, db`nextTxSerial, db`outputs, db`nextOutputSerial, db`addresses
    modifies db`blocks, block`sequence, block`coinbase
    ensures db.Valid()
    ensures o.Fail? ==> o.error == TypeError || o.error == AssertionError || o.error == DbError
    ensures CoinbaseShape(tx.vin).Fail? ==> o == CoinbaseShape(tx.vin) && db.Tables() == old(db.Tables())
    ensures CoinbaseShape(tx.vin).Pass? ==>
      db.blocks == Update(old(db.blocks), Database.ValidBlockhash(block.blockhash),
                          Database.SetCoinbase(tx.vin[0].sequence, tx.vin[0].coinbase))
    ensures o.Pass? ==> |db.outputs| == old(|db.outputs|) + |tx.vout|
    ensures o.Pass? ==>
      db.txs == old(db.txs) + [Row(old(db.nextTxSerial), true, TxData(block.blockSerial.value, tx.txid, tx.hash, tx.body, true, None))] &&
      db.outputs == old(db.outputs) + OutputRows(old(db.nextOutputSerial), old(db.nextTxSerial), tx.vout)
  {
    o := CoinbaseShape(tx.vin);
    if o.Fail? {
      return;
    }
    var _, _ := SaveTransactionAndOutputs(db, block.blockSerial.value, tx, true, net);
    o := block.UpdateCoinbase(db, tx.vin[0].sequence, tx.vin[0].coinbase);
  }

  /**
   * That body for any later transaction: its inputs are saved, and its fee
   * is the input total minus the output total.
   */
  method ImportRegularTransaction(db: Database.Database, blockSerial: nat, tx: ChainTx, net: Network)
    returns (o: Outcome)
    requires db.Valid()
    modifies db`txs, db`nextTxSerial, db`outputs, db`nextOutputSerial, db`addresses
    modifies db`inputs, db`nextInputSerial
    ensures db.Valid()
    ensures o.Fail? ==> o.error == DbError
    ensures |db.inputs| >= old(|db.inputs|)
    ensures o.Pass? ==> |db.outputs| == old(|db.outputs|) + |tx.vout|
    ensures o.Pass? ==>
      db.txs == old(db.txs) + [Row(old(db.nextTxSerial), true, TxData(blockSerial, tx.txid, tx.hash, tx.body, false,
        Some(SumOutValues(db.inputs[old(|db.inputs|)..]) - SumVout(tx.vout))))]
    ensures o.Pass? ==>
      |db.inputs| == old(|db.inputs|) + |tx.vin| &&
      InputRowsOf(db.inputs[old(|db.inputs|)..], old(db.nextInputSerial), old(db.nextTxSerial), tx.vin) &&
      db.outputs == MarkSpentBy(old(db.outputs) + OutputRows(old(db.nextOutputSerial), old(db.nextTxSerial), tx.vout),
                                db.inputs[old(|db.inputs|)..]) &&
      AllResolved(db.txs, db.outputs, db.inputs[old(|db.inputs|)..], old(db.nextTxSerial), tx.vin)
  {
    var dbTx, totalOut := SaveTransactionAndOutputs(db, blockSerial, tx, false, net);
    o := ImportSpends(db, dbTx, tx.vin, totalOut, old(db.txs));
  }

  /** The coinbase update changes no serial, validity, height, hash or branch. */
  lemma CoinbaseKeepsKeys(blocks: seq<Row<BlockData>>, p: Row<BlockData> -> bool, sequence: int, coinbase: string)
    ensures KeysPreserved(blocks, Update(blocks, p, Database.SetCoinbase(sequence, coinbase)))
  {
  }

  lemma KeysPreservedTrans(a: seq<Row<BlockData>>, b: seq<Row<BlockData>>, c: seq<Row<BlockData>>)
    requires KeysPreserved(a, b) && KeysPreserved(b, c)
    ensures KeysPreserved(a, c)
  {
  }

  /**
   * The transaction rows saved for a block's transactions, in order: valid,
   * in the block with this serial, with the transactions' txids, and only
   * the first one marked coinbase.
   */
  ghost predicate TxRowsOf(rows: seq<Row<TxData>>, blockSerial: nat, txs: seq<ChainTx>) {
    |rows| == |txs| &&
    forall m :: 0 <= m < |rows| ==>
      rows[m].isValid && rows[m].data.blockSerial == blockSerial && rows[m].data.txid == txs[m].txid &&
      rows[m].data.isCoinbase == (m == 0)
  }

  lemma TxRowsOfAppend(rows: seq<Row<TxData>>, row: Row<TxData>, blockSerial: nat, txs: seq<ChainTx>, j: nat)
    requires j < |txs| && TxRowsOf(rows, blockSerial, txs[..j])
    requires row.isValid && row.data.blockSerial == blockSerial && row.data.txid == txs[j].txid
    requires row.data.isCoinbase == (j == 0)
    ensures TxRowsOf(rows + [row], blockSerial, txs[..j + 1])
  {
    var all := rows + [row];
    forall m | 0 <= m < |all|
      ensures all[m].isValid && all[m].data.blockSerial == blockSerial && all[m].data.txid == txs[..j + 1][m].txid &&
              all[m].data.isCoinbase == (m == 0)
    {
      if m < |rows| {
        assert all[m] == rows[m] && txs[..j + 1][m] == txs[..j][m];
      }
    }
  }

  /**
   * One pass of the loop over a block's transactions, as the loop's
   * invariant sees it: the block row saved last keeps its keys, and the
   * `j`th transaction's row follows the rows `added` for the earlier ones.
   */
  method ImportNthTransaction(db: Database.Database, dbBlock: Block.Block, cb: ChainBlock, j: nat, net: Network,
                              ghost savedBlocks: seq<Row<BlockData>>, ghost prefix: seq<Row<TxData>>,
                              ghost added: seq<Row<TxData>>)
    returns (o: Outcome)
    requires db.Valid() && j < |cb.tx|
    requires dbBlock.blockSerial.Some? && dbBlock.blockhash == cb.hash
    requires |savedBlocks| > 0 && savedBlocks[|savedBlocks| - 1].isValid
    requires savedBlocks[|savedBlocks| - 1].data.blockhash == cb.hash
    requires KeysPreserved(savedBlocks, db.blocks) && |db.blocks| == |savedBlocks|
    requires db.txs == prefix + added && TxRowsOf(added, dbBlock.blockSerial.value, cb.tx[..j])
    modifies db`txs, db`nextTxSerial, db`outputs, db`nextOutputSerial, db`addresses
    modifies db`inputs, db`nextInputSerial, db`blocks, dbBlock`sequence, dbBlock`coinbase
    ensures db.Valid()
    ensures o.Fail? ==> o.error == TypeError || o.error == AssertionError || o.error == DbError
    ensures KeysPreserved(savedBlocks, db.blocks) && |db.blocks| == |savedBlocks|
    ensures j > 0 ==> db.blocks == old(db.blocks)
    ensures o.Pass? ==>
      (j == 0 ==> |cb.tx[0].vin| == 1 && db.blocks[|savedBlocks| - 1].data.coinbase == Some(cb.tx[0].vin[0].coinbase)) &&
      |db.txs| > 0 && db.txs == prefix + (added + [db.txs[|db.txs| - 1]]) &&
      TxRowsOf(added + [db.txs[|db.txs| - 1]], dbBlock.blockSerial.value, cb.tx[..j + 1])
  {
    ghost var blocksBefore := db.blocks;
    o := ImportTransaction(db, dbBlock, cb.tx[j], j == 0, net);
    if o.Fail? {
      if j == 0 && CoinbaseShape(cb.tx[0].vin).Pass? {
        CoinbaseKeepsKeys(blocksBefore, Database.ValidBlockhash(cb.hash), cb.tx[0].vin[0].sequence, cb.tx[0].vin[0].coinbase);
        KeysPreservedTrans(savedBlocks, blocksBefore, db.blocks);
      }
      return;
    }
    if j == 0 {
      CoinbaseKeepsKeys(blocksBefore, Database.ValidBlockhash(cb.hash), cb.tx[0].vin[0].sequence, cb.tx[0].vin[0].coinbase);
      KeysPreservedTrans(savedBlocks, blocksBefore, db.blocks);
    }
    ghost var row := db.txs[|db.txs| - 1];
    AppendAssoc(prefix, added, row);
    TxRowsOfAppend(added, row, dbBlock.blockSerial.value, cb.tx, j);
  }

  /**
   * `new Block(chainBlock)`, `save()` and the loop over its transactions:
   * the block joins the best branch as a new valid row, then each
   * transaction is imported in order, the first as the coinbase.
   */
  method ImportBlock(db: Database.Database, cb: ChainBlock, net: Network) returns (o: Outcome)
    requires db.Valid()
    modifies db`blocks, db`nextBlockSerial, db`txs, db`nextTxSerial, db`outputs, db`nextOutputSerial
    modifies db`addresses, db`inputs, db`nextInputSerial
    ensures db.Valid()
    ensures o.Fail? ==> o.error == TypeError || o.error == AssertionError || o.error == DbError
    ensures |db.blocks| == old(|db.blocks|) + 1
    ensures KeysPreserved(old(db.blocks) + [Row(old(db.nextBlockSerial), true,
              BlockData(Database.BestBranchSerial(db.branches), cb.hash, cb.height, cb.header, None, None))], db.blocks)
    ensures o.Pass? ==> |db.txs| == old(|db.txs|) + |cb.tx| && TxRowsOf(db.txs[old(|db.txs|)..], old(db.nextBlockSerial), cb.tx)
    ensures o.Pass? && |cb.tx| > 0 ==>
      |cb.tx[0].vin| == 1 && db.blocks[old(|db.blocks|)].data.coinbase == Some(cb.tx[0].vin[0].coinbase)
  {
    var dbBlock := new Block.Block(cb);
    dbBlock.Save(db);
    o := ImportTransactions(db, dbBlock, cb, net);
  }

  /** The loop over a saved block's transactions, in order, the first as the coinbase. */
  method ImportTransactions(db: Database.Database, dbBlock: Block.Block, cb: ChainBlock, net: Network) returns (o: Outcome)
    requires db.Valid() && dbBlock.blockSerial.Some? && dbBlock.blockhash == cb.hash
    requires |db.blocks| > 0 && db.blocks[|db.blocks| - 1].isValid && db.blocks[|db.blocks| - 1].data.blockhash == cb.hash
    modifies db`txs, db`nextTxSerial, db`outputs, db`nextOutputSerial, db`addresses
    modifies db`inputs, db`nextInputSerial, db`blocks, dbBlock`sequence, dbBlock`coinbase
    ensures db.Valid()
    ensures o.Fail? ==> o.error == TypeError || o.error == AssertionError || o.error == DbError
    ensures KeysPreserved(old(db.blocks), db.blocks) && |db.blocks| == old(|db.blocks|)
    ensures o.Pass? ==>
      |db.txs| == old(|db.txs|) + |cb.tx| && TxRowsOf(db.txs[old(|db.txs|)..], dbBlock.blockSerial.value, cb.tx)
    ensures o.Pass? && |cb.tx| > 0 ==>
      |cb.tx[0].vin| == 1 && db.blocks[|db.blocks| - 1].data.coinbase == Some(cb.tx[0].vin[0].coinbase)
  {
    ghost var savedBlocks := db.blocks;
    ghost var added: seq<Row<TxData>> := [];
    for j := 0 to |cb.tx|
      invariant db.Valid()
      invariant KeysPreserved(savedBlocks, db.blocks) && |db.blocks| == |savedBlocks|
      invariant db.txs == old(db.txs) + added && TxRowsOf(added, dbBlock.blockSerial.value, cb.tx[..j])
      invariant j > 0 ==> |cb.tx[0].vin| == 1 && db.blocks[|savedBlocks| - 1].data.coinbase == Some(cb.tx[0].vin[0].coinbase)
    {
      o := ImportNthTransaction(db, dbBlock, cb, j, net, savedBlocks, old(db.txs), added);
      if o.Fail? {
        return;
      }
      added := added + [db.txs[|db.txs| - 1]];
    }
    assert cb.tx[..|cb.tx|] == cb.tx && db.txs[|old(db.txs)|..] == added;
    o := Pass;
  }

  // ---------------------------------------------------------------------------
  // One height of the sync loop
  // ---------------------------------------------------------------------------

  /** The rows of `a` keep their keys in `b`, and every row `b` adds has the chain's hash for its height. */
  ghost predicate GrowsAlongChain(a: seq<Row<BlockData>>, b: seq<Row<BlockData>>, chain: Chain) {
    KeysPreserved(a, b) &&
    forall i :: |a| <= i < |b| ==> chain.blockHash(b[i].data.height) == Some(b[i].data.blockhash)
  }

  /** Growing along the chain keeps agreement with it and every height it mirrors. */
  lemma GrowthKeepsAgreement(a: seq<Row<BlockData>>, b: seq<Row<BlockData>>, chain: Chain, from: nat)
    requires GrowsAlongChain(a, b, chain)
    ensures Agrees(a, chain, from) ==> Agrees(b, chain, from)
    ensures GenesisAgrees(a, chain) ==> GenesisAgrees(b, chain)
    ensures forall h: nat :: MirroredAt(a, chain, h) ==> MirroredAt(b, chain, h)
  {
    forall h: nat | MirroredAt(a, chain, h) ensures MirroredAt(b, chain, h) {
      var i :| 0 <= i < |a| && Database.ValidWithHash(h, chain.blockHash(h).value)(a[i]);
      assert Database.ValidWithHash(h, chain.blockHash(h).value)(b[i]);
    }
  }

  /** `b` grows `a` along the chain, and every row it adds belongs to branch `s`. */
  ghost predicate GrowsOnBranch(a: seq<Row<BlockData>>, b: seq<Row<BlockData>>, chain: Chain, s: Option<nat>) {
    GrowsAlongChain(a, b, chain) && forall i :: |a| <= i < |b| ==> b[i].data.branchSerial == s
  }

  /**
   * While the branch table is empty, the best branch serial is null and every
   * block is saved on that null branch. A store grown that way has no height
   * whose branch serial can be read, so a fork recovery, which reads the
   * common ancestor's branch, fails with DbError.
   */
  lemma NullBranchGrowthBlocksRecovery(a: seq<Row<BlockData>>, b: seq<Row<BlockData>>, chain: Chain, height: nat)
    requires GrowsOnBranch(a, b, chain, None) && Database.UniqueValidHeights(b)
    requires forall i :: 0 <= i < |a| && a[i].isValid ==> a[i].data.branchSerial.None?
    ensures Database.BlockBranchSerialByHeight(b, height) == Err(DbError)
  {
  }

  lemma GrowsOnBranchTrans(a: seq<Row<BlockData>>, b: seq<Row<BlockData>>, c: seq<Row<BlockData>>, chain: Chain, s: Option<nat>)
    requires GrowsOnBranch(a, b, chain, s) && GrowsOnBranch(b, c, chain, s)
    ensures GrowsOnBranch(a, c, chain, s)
  {
    forall i | |a| <= i < |c| ensures chain.blockHash(c[i].data.height) == Some(c[i].data.blockhash) {
      if i < |b| {
        assert c[i].data.height == b[i].data.height && c[i].data.blockhash == b[i].data.blockhash;
      }
    }
  }

  /** Every valid block above height `a` belongs to branch `s`. */
  ghost predicate BranchAbove(blocks: seq<Row<BlockData>>, a: nat, s: nat) {
    forall i :: 0 <= i < |blocks| && blocks[i].isValid && blocks[i].data.height > a ==> blocks[i].data.branchSerial == Some(s)
  }

  /**
   * Rewinding to `a` leaves no valid block above it, and growing on branch
   * `s` afterwards puts every valid block above `a` on `s`; the heights at or
   * below `a` that the store mirrored stay mirrored.
   */
  lemma RewindThenGrowOnBranch(blocks: seq<Row<BlockData>>, b: seq<Row<BlockData>>, chain: Chain, a: nat, s: nat)
    requires GrowsOnBranch(Database.InvalidatedAbove(blocks, a), b, chain, Some(s))
    ensures BranchAbove(b, a, s)
    ensures forall h: nat :: h <= a && MirroredAt(blocks, chain, h) ==> MirroredAt(b, chain, h)
  {
    var r := Database.InvalidatedAbove(blocks, a);
    forall h: nat | h <= a && MirroredAt(blocks, chain, h) ensures MirroredAt(b, chain, h) {
      var i :| 0 <= i < |blocks| && Database.ValidWithHash(h, chain.blockHash(h).value)(blocks[i]);
      assert r[i] == blocks[i];
      assert Database.ValidWithHash(h, chain.blockHash(h).value)(b[i]);
    }
  }

  /**
   * A block row added at a height that had no valid block, whose keys then
   * stay, keeps one valid block per height.
   */
  lemma ImportKeepsUnique(a: seq<Row<BlockData>>, row: Row<BlockData>, b: seq<Row<BlockData>>)
    requires Database.UniqueValidHeights(a)
    requires forall i :: 0 <= i < |a| ==> !Database.ValidAtHeight(row.data.height)(a[i])
    requires KeysPreserved(a + [row], b) && |b| == |a| + 1
    ensures Database.UniqueValidHeights(b)
  {
    forall i, j | 0 <= i < |b| && 0 <= j < |b| && b[i].isValid && b[j].isValid && b[i].data.height == b[j].data.height
      ensures i == j
    {
      if i < |a| && j < |a| {
        assert (a + [row])[i] == a[i] && (a + [row])[j] == a[j];
      } else if i < |a| {
        assert (a + [row])[i] == a[i];
      } else if j < |a| {
        assert (a + [row])[j] == a[j];
      }
    }
  }

  /**
   * The block row imported for the node's hash at a height without a valid
   * block: the table grows along the chain, mirrors that height, and keeps
   * one valid block per height.
   */
  lemma ImportedBlockAlongChain(a: seq<Row<BlockData>>, row: Row<BlockData>, b: seq<Row<BlockData>>,
                                chain: Chain, height: nat)
    requires row.isValid && row.data.height == height && chain.blockHash(height) == Some(row.data.blockhash)
    requires forall i :: 0 <= i < |a| ==> !Database.ValidAtHeight(height)(a[i])
    requires KeysPreserved(a + [row], b) && |b| == |a| + 1
    ensures GrowsOnBranch(a, b, chain, row.data.branchSerial) && MirroredAt(b, chain, height)
    ensures Database.UniqueValidHeights(a) ==> Database.UniqueValidHeights(b)
  {
    assert (a + [row])[|a|] == row;
    assert forall i :: 0 <= i < |a| ==> (a + [row])[i] == a[i];
    assert Database.ValidWithHash(height, row.data.blockhash)(b[|a|]);
    if Database.UniqueValidHeights(a) {
      ImportKeepsUnique(a, row, b);
    }
  }

  /**
   * The body of the sync loop between BEGIN and COMMIT: ask the node for the
   * hash at this height; a block the store already holds is skipped, a
   * different valid block at this height raises ForkDetectedError, and
   * otherwise the node's block is fetched and imported.
   */
  method SyncHeight(db: Database.Database, chain: Chain, height: nat, net: Network) returns (o: Outcome)
    requires db.Valid()
    modifies db`blocks, db`nextBlockSerial, db`txs, db`nextTxSerial, db`outputs, db`nextOutputSerial
    modifies db`addresses, db`inputs, db`nextInputSerial
    ensures db.Valid()
    ensures o.Fail? ==>
      o.error == JsonRpcError || o.error == ForkDetected(height) || o.error == AssertionError ||
      o.error == TypeError || o.error == DbError
    ensures chain.blockHash(height).None? ==> o == Fail(JsonRpcError) && db.Tables() == old(db.Tables())
    ensures (chain.blockHash(height).Some? &&
             Database.ExistsBlock(old(db.blocks), height, chain.blockHash(height).value) == Ok(true)) ==>
      o.Pass? && db.Tables() == old(db.Tables())
    ensures o == Fail(ForkDetected(height)) ==>
      db.Tables() == old(db.Tables()) && chain.blockHash(height).Some? &&
      exists i :: 0 <= i < |db.blocks| && Database.ValidWithOtherHash(height, chain.blockHash(height).value)(db.blocks[i])
    ensures Consistent(chain) ==>
      GrowsOnBranch(old(db.blocks), db.blocks, chain, Database.BestBranchSerial(db.branches)) &&
      (Database.UniqueValidHeights(old(db.blocks)) ==> Database.UniqueValidHeights(db.blocks)) &&
      (o.Pass? ==> MirroredAt(db.blocks, chain, height))
  {
    var chainHash := chain.blockHash(height);
    if chainHash.None? {
      return Fail(JsonRpcError);
    }
    var known := Database.ExistsBlock(db.blocks, height, chainHash.value);
    if known.Err? {
      return Fail(known.error);
    }
    if known.value {
      return Pass;
    }
    var chainBlock := chain.getBlock(chainHash.value);
    if chainBlock.None? {
      return Fail(JsonRpcError);
    }
    ghost var before := db.blocks;
    ghost var row := Row(db.nextBlockSerial, true,
      BlockData(Database.BestBranchSerial(db.branches), chainBlock.value.hash, chainBlock.value.height,
                chainBlock.value.header, None, None));
    o := ImportBlock(db, chainBlock.value, net);
    if Consistent(chain) {
      ImportedBlockAlongChain(before, row, db.blocks, chain, height);
    }
  }

  /** One valid block per height, and a genesis block common with the chain. */
  ghost predicate Sane(blocks: seq<Row<BlockData>>, chain: Chain) {
    Database.UniqueValidHeights(blocks) && GenesisAgrees(blocks, chain)
  }

  /** The block table, and the one an open transaction would roll back to, are both sane. */
  ghost predicate StoreSane(db: Database.Database, chain: Chain)
    reads db
  {
    Sane(db.blocks, chain) && (db.saved.Some? ==> Sane(db.saved.value.blocks, chain))
  }

  /**
   * The part of the loop and of its error handlers that closes the
   * transaction after a height: COMMIT on success and on a fork, ROLLBACK on
   * a failed request or query, and nothing on any other error, which leaves
   * the transaction open.
   */
  method CloseTransaction(db: Database.Database, o: Outcome, ghost chain: Chain)
    requires db.Valid() && StoreSane(db, chain)
    modifies db`saved, db`branches, db`blocks, db`txs, db`outputs, db`inputs, db`addresses
    ensures db.Valid() && StoreSane(db, chain)
    ensures o.Pass? || (o.Fail? && o.error.ForkDetected?) ==> db.saved.None? && db.Tables() == old(db.Tables())
    ensures o == Fail(JsonRpcError) || o == Fail(DbError) ==>
      db.saved.None? && db.Tables() == if old(db.saved).Some? then old(db.saved).value else old(db.Tables())
    ensures o.Fail? && o.error != JsonRpcError && o.error != DbError && !o.error.ForkDetected? ==>
      db.saved == old(db.saved) && db.Tables() == old(db.Tables())
    ensures o != Fail(JsonRpcError) && o != Fail(DbError) ==> db.blocks == old(db.blocks) && db.branches == old(db.branches)
  {
    if o.Pass? || o.error.ForkDetected? {
      db.CommitTransaction();
    } else if o.error == JsonRpcError || o.error == DbError {
      db.RollbackTransaction();
    }
  }

  /** One iteration of the sync loop: BEGIN, the height's import, and the close of the transaction. */
  method SyncStep(db: Database.Database, chain: Chain, height: nat, net: Network) returns (o: Outcome)
    requires db.Valid() && Consistent(chain) && StoreSane(db, chain)
    modifies db
    ensures db.Valid() && StoreSane(db, chain)
    ensures o.Fail? ==>
      o.error == JsonRpcError || o.error == ForkDetected(height) || o.error == AssertionError ||
      o.error == TypeError || o.error == DbError
    ensures o.Pass? ==> db.saved.None? && MirroredAt(db.blocks, chain, height)
    ensures o == Fail(ForkDetected(height)) ==>
      db.saved.None? && db.blocks == old(db.blocks) && chain.blockHash(height).Some? &&
      exists i :: 0 <= i < |db.blocks| && Database.ValidWithOtherHash(height, chain.blockHash(height).value)(db.blocks[i])
    ensures o != Fail(JsonRpcError) && o != Fail(DbError) ==>
      db.branches == old(db.branches) && GrowsOnBranch(old(db.blocks), db.blocks, chain, Database.BestBranchSerial(db.branches))
    ensures o == Fail(JsonRpcError) || o == Fail(DbError) ==>
      db.saved.None? && db.Tables() == if old(db.saved).Some? then old(db.saved).value else old(db.Tables())
  {
    o := SyncOpenHeight(db, chain, height, net);
    CloseTransaction(db, o, chain);
  }

  /** BEGIN and the height's import, before the transaction is closed. */
  method SyncOpenHeight(db: Database.Database, chain: Chain, height: nat, net: Network) returns (o: Outcome)
    requires db.Valid() && Consistent(chain) && StoreSane(db, chain)
    modifies db`saved, db`blocks, db`nextBlockSerial, db`txs, db`nextTxSerial, db`outputs, db`nextOutputSerial
    modifies db`addresses, db`inputs, db`nextInputSerial
    ensures db.Valid() && StoreSane(db, chain)
    ensures o.Fail? ==>
      o.error == JsonRpcError || o.error == ForkDetected(height) || o.error == AssertionError ||
      o.error == TypeError || o.error == DbError
    ensures o.Pass? ==> MirroredAt(db.blocks, chain, height)
    ensures o == Fail(ForkDetected(height)) ==>
      db.blocks == old(db.blocks) && chain.blockHash(height).Some? &&
      exists i :: 0 <= i < |db.blocks| && Database.ValidWithOtherHash(height, chain.blockHash(height).value)(db.blocks[i])
    ensures GrowsOnBranch(old(db.blocks), db.blocks, chain, Database.BestBranchSerial(db.branches))
    ensures db.saved == if old(db.saved).None? then Some(old(db.Tables())) else old(db.saved)
  {
    db.BeginTransaction();
    ghost var before := db.blocks;
    ghost var saved := db.saved;
    assert saved.Some? && Sane(saved.value.blocks, chain);
    o := SyncHeight(db, chain, height, net);
    assert db.saved == saved;
    GrowthKeepsAgreement(before, db.blocks, chain, 0);
    assert Sane(db.blocks, chain);
    assert o == Fail(ForkDetected(height)) ==> db.blocks == before;
  }

  /** A valid block at or above `from` with a hash other than the chain's breaks agreement from `from`. */
  lemma ForkBreaksAgreement(blocks: seq<Row<BlockData>>, chain: Chain, from: nat, height: nat, h: Hash)
    requires from <= height && chain.blockHash(height) == Some(h)
    requires exists i :: 0 <= i < |blocks| && Database.ValidWithOtherHash(height, h)(blocks[i])
    ensures !Agrees(blocks, chain, from)
  {
    var i :| 0 <= i < |blocks| && Database.ValidWithOtherHash(height, h)(blocks[i]);
  }

  /**
   * The loop of `syncDb` inside its `try`: sync each height from `lo` up to
   * `hi` in turn, stopping at the first error. A fork can only be detected
   * where the store disagreed with the chain from `lo` on; the heights below
   * it are mirrored by then. A pass without error adds only the chain's
   * blocks, on the best branch, and leaves the branches as they were.
   */
  method SyncHeights(db: Database.Database, chain: Chain, net: Network, lo: nat, hi: nat)
    returns (o: Outcome, ghost stop: nat)
    requires lo <= hi
    requires db.Valid() && Consistent(chain) && StoreSane(db, chain)
    modifies db
    ensures db.Valid() && StoreSane(db, chain)
    ensures o.Fail? ==>
      o.error == JsonRpcError || o.error == DbError || o.error == AssertionError || o.error == TypeError ||
      o.error.ForkDetected?
    ensures o.Pass? ==>
      db.saved.None? && (forall h :: lo <= h <= hi ==> MirroredAt(db.blocks, chain, h)) &&
      db.branches == old(db.branches) &&
      GrowsOnBranch(old(db.blocks), db.blocks, chain, Database.BestBranchSerial(db.branches))
    ensures o.Pass? ==> Database.BestBlockHeight(db.blocks) >= hi
    ensures o.Fail? && o.error.ForkDetected? ==>
      db.saved.None? && !Agrees(old(db.blocks), chain, lo) && lo <= o.error.forkHeight <= hi &&
      (forall h :: lo <= h < o.error.forkHeight ==> MirroredAt(db.blocks, chain, h)) &&
      chain.blockHash(o.error.forkHeight).Some? &&
      (exists i :: 0 <= i < |db.blocks| &&
        Database.ValidWithOtherHash(o.error.forkHeight, chain.blockHash(o.error.forkHeight).value)(db.blocks[i])) &&
      (Database.BestBlockHeight(old(db.blocks)) <= lo ==> o.error.forkHeight == lo && db.blocks == old(db.blocks))
    ensures o == Fail(JsonRpcError) || o == Fail(DbError) ==>
      db.saved.None? && lo <= stop <= hi && (forall h :: lo <= h < stop ==> MirroredAt(db.blocks, chain, h)) &&
      (stop == lo ==> db.Tables() == if old(db.saved).Some? then old(db.saved).value else old(db.Tables())) &&
      (stop > lo || old(db.saved).None? ==>
        db.branches == old(db.branches) &&
        GrowsOnBranch(old(db.blocks), db.blocks, chain, Database.BestBranchSerial(db.branches)))
  {
    o := Pass;
    stop := lo;
    var height := lo;
    while height <= hi
      invariant lo <= height <= hi + 1
      invariant db.Valid() && StoreSane(db, chain)
      invariant height > lo ==> db.saved.None?
      invariant o.Pass?
      invariant db.branches == old(db.branches)
      invariant GrowsOnBranch(old(db.blocks), db.blocks, chain, Database.BestBranchSerial(db.branches))
      invariant height == lo ==> db.Tables() == old(db.Tables()) && db.saved == old(db.saved)
      invariant forall h :: lo <= h < height ==> MirroredAt(db.blocks, chain, h)
      decreases hi + 1 - height
    {
      stop := height;
      o := SyncNextHeight(db, chain, net, lo, height, old(db.blocks), old(db.branches), old(db.Tables()), old(db.saved));
      if o.Fail? {
        return;
      }
      height := height + 1;
    }
    MirroredRaisesBest(db.blocks, chain, hi);
  }

  /**
   * One pass of that loop as its invariant sees it: the pass so far grew the
   * store `start` along the chain on the best branch and mirrors the heights
   * from `lo` below `height`; syncing `height` either extends that or stops
   * the pass, at a fork only where `start` disagreed with the chain. A failed
   * request or query rolls the height back; `startTables` and `startSaved`
   * are the tables and the open snapshot when the loop began, so that the
   * rollback at the first height is stated in the loop's own terms.
   */
  method SyncNextHeight(db: Database.Database, chain: Chain, net: Network, lo: nat, height: nat,
                        ghost start: seq<Row<BlockData>>, ghost branches: seq<BranchRow>,
                        ghost startTables: Database.Snapshot, ghost startSaved: Option<Database.Snapshot>)
    returns (o: Outcome)
    requires lo <= height
    requires db.Valid() && Consistent(chain) && StoreSane(db, chain)
    requires db.branches == branches && GrowsOnBranch(start, db.blocks, chain, Database.BestBranchSerial(branches))
    requires height == lo ==> db.blocks == start
    requires forall h :: lo <= h < height ==> MirroredAt(db.blocks, chain, h)
    requires height > lo ==> db.saved.None?
    requires height == lo ==> db.Tables() == startTables && db.saved == startSaved
    modifies db
    ensures db.Valid() && StoreSane(db, chain)
    ensures o.Fail? ==>
      o.error == JsonRpcError || o.error == DbError || o.error == AssertionError || o.error == TypeError ||
      o.error == ForkDetected(height)
    ensures o == Fail(JsonRpcError) || o == Fail(DbError) ==>
      db.saved.None? && db.Tables() == (if old(db.saved).Some? then old(db.saved).value else old(db.Tables())) &&
      (forall h :: lo <= h < height ==> MirroredAt(db.blocks, chain, h)) &&
      (height == lo ==> db.Tables() == if startSaved.Some? then startSaved.value else startTables) &&
      (height > lo || startSaved.None? ==>
        db.branches == branches && GrowsOnBranch(start, db.blocks, chain, Database.BestBranchSerial(branches)))
    ensures o.Pass? ==>
      db.saved.None? && db.branches == branches &&
      GrowsOnBranch(start, db.blocks, chain, Database.BestBranchSerial(branches)) &&
      forall h :: lo <= h <= height ==> MirroredAt(db.blocks, chain, h)
    ensures o == Fail(ForkDetected(height)) ==>
      db.saved.None? && !Agrees(start, chain, lo) &&
      (forall h :: lo <= h < height ==> MirroredAt(db.blocks, chain, h)) &&
      chain.blockHash(height).Some? &&
      (exists i :: 0 <= i < |db.blocks| && Database.ValidWithOtherHash(height, chain.blockHash(height).value)(db.blocks[i])) &&
      (Database.BestBlockHeight(start) <= lo ==> height == lo && db.blocks == start)
  {
    ghost var before := db.blocks;
    o := SyncStep(db, chain, height, net);
    if o.Fail? {
      if o.error.ForkDetected? {
        ForkStopsPass(start, db.blocks, chain, lo, height, chain.blockHash(height).value);
      }
      return;
    }
    GrowsOnBranchTrans(start, before, db.blocks, chain, Database.BestBranchSerial(branches));
    GrowthKeepsAgreement(before, db.blocks, chain, lo);
  }

  /**
   * A store that grew along the chain holds a block other than the chain's
   * at height `h` only if it held a valid block at `h` before, so `h` is at
   * most its old best height.
   */
  lemma ForkAtOldHeight(a: seq<Row<BlockData>>, b: seq<Row<BlockData>>, chain: Chain, h: nat, hash: Hash)
    requires GrowsAlongChain(a, b, chain) && chain.blockHash(h) == Some(hash)
    requires exists i :: 0 <= i < |b| && Database.ValidWithOtherHash(h, hash)(b[i])
    ensures h <= Database.BestBlockHeight(a)
  {
    var i :| 0 <= i < |b| && Database.ValidWithOtherHash(h, hash)(b[i]);
    if i < |a| {
      assert a[i].isValid && a[i].data.height == h;
    }
  }

  /**
   * A fork at `height` of a pass from `lo` that grew `a` into `b` along the
   * chain: the store `a` did not agree with the chain from `lo`, and when it
   * had no valid block above `lo` the fork is at `lo`.
   */
  lemma ForkStopsPass(a: seq<Row<BlockData>>, b: seq<Row<BlockData>>, chain: Chain, lo: nat, height: nat, hash: Hash)
    requires GrowsAlongChain(a, b, chain) && lo <= height && chain.blockHash(height) == Some(hash)
    requires exists i :: 0 <= i < |b| && Database.ValidWithOtherHash(height, hash)(b[i])
    ensures !Agrees(a, chain, lo)
    ensures Database.BestBlockHeight(a) <= lo ==> height == lo
  {
    GrowthKeepsAgreement(a, b, chain, lo);
    ForkBreaksAgreement(b, chain, lo, height, hash);
    ForkAtOldHeight(a, b, chain, height, hash);
  }

  /**
   * A fork found at height `h` of a sane store with no valid block above `h`:
   * the search for the common ancestor, which starts at `h`, steps below it.
   */
  lemma ForkAtBestRewindsBelow(blocks: seq<Row<BlockData>>, chain: Chain, h: nat, a: nat)
    requires Sane(blocks, chain) && Database.BestBlockHeight(blocks) <= h && chain.blockHash(h).Some?
    requires exists i :: 0 <= i < |blocks| && Database.ValidWithOtherHash(h, chain.blockHash(h).value)(blocks[i])
    requires CommonAncestor(chain.blockHash, StoredHashes(blocks), Database.BestBlockHeight(blocks)) == Ok(a)
    ensures a < h
  {
    var i :| 0 <= i < |blocks| && Database.ValidWithOtherHash(h, chain.blockHash(h).value)(blocks[i]);
    if h > 0 {
      StoredHashOfUniqueBlock(blocks, h, i);
      CommonAncestorSound(chain.blockHash, StoredHashes(blocks), Database.BestBlockHeight(blocks));
    }
  }

  /**
   * The window from `lo` to `hi` after a rewind to `a` below the fork height:
   * the heights below the fork were mirrored before the rewind, those at or
   * below `a` stay so, and the pass from `a` mirrors the rest.
   */
  lemma RewoundWindowMirrored(forked: seq<Row<BlockData>>, blocks: seq<Row<BlockData>>, chain: Chain,
                              lo: nat, forkHeight: nat, a: nat, hi: nat)
    requires a < forkHeight
    requires forall h :: lo <= h < forkHeight ==> MirroredAt(forked, chain, h)
    requires forall h: nat :: h <= a && MirroredAt(forked, chain, h) ==> MirroredAt(blocks, chain, h)
    requires forall h :: a <= h <= hi ==> MirroredAt(blocks, chain, h)
    ensures forall h :: lo <= h <= hi ==> MirroredAt(blocks, chain, h)
  {
    forall h | lo <= h <= hi ensures MirroredAt(blocks, chain, h) {
      if h < a {
        assert MirroredAt(forked, chain, h);
      }
    }
  }

  /** A mirrored height is at most the best stored height. */
  lemma MirroredRaisesBest(blocks: seq<Row<BlockData>>, chain: Chain, h: nat)
    requires MirroredAt(blocks, chain, h)
    ensures Database.BestBlockHeight(blocks) >= h
  {
    var i :| 0 <= i < |blocks| && Database.ValidWithHash(h, chain.blockHash(h).value)(blocks[i]);
  }

  /**
   * What a pass did about a fork: nothing, or, after a fork detected at
   * `forkHeight`, a rewind to the common ancestor `ancestor` with the new
   * branch `branch`.
   */
  datatype ForkRecovery = NoFork | Recovered(forkHeight: nat, ancestor: nat, branch: nat)

  /**
   * `syncDb`: from `startHeight`, or the best stored height when that is
   * null or 0, up to the chain's block count less the confirmations, sync
   * each height in its own transaction. A fork at a height makes it rewind to
   * the best block common with the chain and start again from there. It
   * returns at once when the store is already as high as the limit.
   * `synced` is the height the last pass started from, and `recovery` says
   * whether the pass rewound.
   */
  method SyncDb(db: Database.Database, chain: Chain, net: Network, minConfirmations: int, startHeight: Option<nat>)
    returns (o: Outcome, ghost synced: nat, ghost recovery: ForkRecovery)
    requires db.Valid() && Consistent(chain) && StoreSane(db, chain)
    modifies db
    ensures db.Valid() && StoreSane(db, chain)
    ensures o.Fail? ==> o.error == JsonRpcError || o.error == DbError || o.error == AssertionError || o.error == TypeError
    ensures chain.blockCount.None? ==>
      o == Fail(JsonRpcError) && db.Tables() == old(db.Tables()) && db.saved == old(db.saved)
    ensures (chain.blockCount.Some? &&
             DbHeight(old(db.blocks), startHeight) >= HeightLimit(chain.blockCount.value, minConfirmations)) ==>
      o.Pass? && db.Tables() == old(db.Tables()) && db.saved == old(db.saved)
    ensures o.Pass? && chain.blockCount.Some? ==>
      forall h :: synced <= h <= HeightLimit(chain.blockCount.value, minConfirmations) ==> MirroredAt(db.blocks, chain, h)
    ensures (chain.blockCount.Some? && Agrees(old(db.blocks), chain, DbHeight(old(db.blocks), startHeight))) ==>
      recovery == NoFork &&
      (o.Pass? ==>
        db.branches == old(db.branches) &&
        GrowsOnBranch(old(db.blocks), db.blocks, chain, Database.BestBranchSerial(db.branches)) &&
        (DbHeight(old(db.blocks), startHeight) < HeightLimit(chain.blockCount.value, minConfirmations) ==>
          synced == DbHeight(old(db.blocks), startHeight)))
    ensures (o.Pass? && chain.blockCount.Some? &&
             DbHeight(old(db.blocks), startHeight) < HeightLimit(chain.blockCount.value, minConfirmations)) ==>
      (recovery.NoFork? ==> synced == DbHeight(old(db.blocks), startHeight)) &&
      (recovery.Recovered? && Database.BestBlockHeight(old(db.blocks)) <= DbHeight(old(db.blocks), startHeight) ==>
        recovery.forkHeight == DbHeight(old(db.blocks), startHeight) &&
        synced == recovery.ancestor < DbHeight(old(db.blocks), startHeight))
    ensures (o.Pass? && chain.blockCount.Some? && recovery.Recovered?) ==>
      DbHeight(old(db.blocks), startHeight) <= recovery.forkHeight <= HeightLimit(chain.blockCount.value, minConfirmations) &&
      (recovery.ancestor < HeightLimit(chain.blockCount.value, minConfirmations) ==> synced == recovery.ancestor) &&
      Database.BestBranchSerial(db.branches) == Some(recovery.branch) &&
      BranchAbove(db.blocks, recovery.ancestor, recovery.branch)
    ensures (o.Pass? && chain.blockCount.Some? &&
             DbHeight(old(db.blocks), startHeight) < HeightLimit(chain.blockCount.value, minConfirmations) &&
             (recovery.NoFork? || recovery.ancestor < recovery.forkHeight)) ==>
      forall h :: DbHeight(old(db.blocks), startHeight) <= h <= HeightLimit(chain.blockCount.value, minConfirmations) ==>
        MirroredAt(db.blocks, chain, h)
    ensures (o.Pass? && chain.blockCount.Some? && DbHeight(old(db.blocks), startHeight) <= Database.BestBlockHeight(old(db.blocks))) ==>
      Database.BestBlockHeight(db.blocks) >= HeightLimit(chain.blockCount.value, minConfirmations)
    decreases if Agrees(db.blocks, chain, DbHeight(db.blocks, startHeight)) then 0 else 1, 2
  {
    var dbHeight := DbHeight(db.blocks, startHeight);
    if chain.blockCount.None? {
      return Fail(JsonRpcError), 0, NoFork;
    }
    var heightLimit := HeightLimit(chain.blockCount.value, minConfirmations);
    if dbHeight + 1 > heightLimit {
      return Pass, heightLimit + 1, NoFork;
    }
    o, synced, recovery := SyncWindow(db, chain, net, minConfirmations, dbHeight, heightLimit);
  }

  /**
   * The `try` of `syncDb` with its fork handler: sync the heights from `lo`
   * up to the limit `hi`; on a fork, rewind to the common ancestor and run
   * `syncDb` again from it.
   */
  method SyncWindow(db: Database.Database, chain: Chain, net: Network, minConfirmations: int, lo: nat, hi: nat)
    returns (o: Outcome, ghost synced: nat, ghost recovery: ForkRecovery)
    requires chain.blockCount.Some? && hi == HeightLimit(chain.blockCount.value, minConfirmations) && lo < hi
    requires db.Valid() && Consistent(chain) && StoreSane(db, chain)
    modifies db
    ensures db.Valid() && StoreSane(db, chain)
    ensures o.Fail? ==> o.error == JsonRpcError || o.error == DbError || o.error == AssertionError || o.error == TypeError
    ensures o.Pass? ==> forall h :: synced <= h <= hi ==> MirroredAt(db.blocks, chain, h)
    ensures o.Pass? ==> Database.BestBlockHeight(db.blocks) >= hi
    ensures Agrees(old(db.blocks), chain, lo) ==>
      recovery == NoFork &&
      (o.Pass? ==>
        synced == lo && db.branches == old(db.branches) &&
        GrowsOnBranch(old(db.blocks), db.blocks, chain, Database.BestBranchSerial(db.branches)))
    ensures o.Pass? && recovery.NoFork? ==> synced == lo
    ensures o.Pass? && recovery.Recovered? ==>
      lo <= recovery.forkHeight <= hi && (recovery.ancestor < hi ==> synced == recovery.ancestor) &&
      Database.BestBranchSerial(db.branches) == Some(recovery.branch) &&
      BranchAbove(db.blocks, recovery.ancestor, recovery.branch) &&
      (Database.BestBlockHeight(old(db.blocks)) <= lo ==> recovery.forkHeight == lo && recovery.ancestor < lo)
    ensures o.Pass? && (recovery.NoFork? || recovery.ancestor < recovery.forkHeight) ==>
      forall h :: lo <= h <= hi ==> MirroredAt(db.blocks, chain, h)
    decreases if Agrees(db.blocks, chain, lo) then 0 else 1, 1
  {
    ghost var stop;
    o, stop := SyncHeights(db, chain, net, lo, hi);
    synced, recovery := lo, NoFork;
    if o.Fail? && o.error.ForkDetected? {
      var forkHeight := o.error.forkHeight;
      ghost var forked := db.blocks;
      ghost var ancestor, branch;
      o, synced, ancestor, branch := HandleFork(db, chain, net, minConfirmations, hi);
      recovery := Recovered(forkHeight, ancestor, branch);
      if o.Pass? {
        if Database.BestBlockHeight(old(db.blocks)) <= lo {
          ForkAtBestRewindsBelow(forked, chain, lo, ancestor);
        }
        if ancestor < forkHeight {
          RewoundWindowMirrored(forked, db.blocks, chain, lo, forkHeight, ancestor, hi);
        }
      }
    }
  }

  /**
   * The `catch` of `syncDb` for a fork, after its commit: rewind to the
   * common ancestor and run `syncDb` again from it. That pass starts where
   * the store agrees with the chain, so it meets no fork: the new branch is
   * the best one, every valid block above the ancestor is on it, and the
   * heights at or below the ancestor that were mirrored stay mirrored.
   */
  method HandleFork(db: Database.Database, chain: Chain, net: Network, minConfirmations: int, hi: nat)
    returns (o: Outcome, ghost synced: nat, ghost ancestor: nat, ghost branch: nat)
    requires chain.blockCount.Some? && hi == HeightLimit(chain.blockCount.value, minConfirmations)
    requires db.Valid() && Consistent(chain) && StoreSane(db, chain)
    modifies db
    ensures db.Valid() && StoreSane(db, chain)
    ensures o.Fail? ==> o.error == JsonRpcError || o.error == DbError || o.error == AssertionError || o.error == TypeError
    ensures o.Pass? ==> forall h :: synced <= h <= hi ==> MirroredAt(db.blocks, chain, h)
    ensures o.Pass? ==> Database.BestBlockHeight(db.blocks) >= hi
    ensures o.Pass? ==>
      CommonAncestor(chain.blockHash, StoredHashes(old(db.blocks)), Database.BestBlockHeight(old(db.blocks))) == Ok(ancestor) &&
      (ancestor < hi ==> synced == ancestor) &&
      Database.BlockBranchSerialByHeight(old(db.blocks), ancestor).Ok? &&
      branch == old(db.nextBranchSerial) &&
      db.branches == old(db.branches) +
        [BranchRow(branch, ancestor, Database.BlockBranchSerialByHeight(old(db.blocks), ancestor).value)] &&
      Database.BestBranchSerial(db.branches) == Some(branch) &&
      BranchAbove(db.blocks, ancestor, branch) &&
      forall h: nat :: h <= ancestor && MirroredAt(old(db.blocks), chain, h) ==> MirroredAt(db.blocks, chain, h)
    decreases 1, 0
  {
    var a := RecoverFromFork(db, chain);
    if a.Err? {
      return Fail(a.error), 0, 0, 0;
    }
    ancestor, branch := a.value, db.branches[|db.branches| - 1].serial;
    o, synced := ResyncFromAncestor(db, chain, net, minConfirmations, hi, a.value, branch, old(db.blocks));
  }

  /**
   * The `syncDb` call of that handler, from the ancestor `a` of a store
   * rewound to it: the store agrees with the chain from `a`, so the pass
   * meets no fork and adds the chain's blocks on the best branch.
   */
  method ResyncFromAncestor(db: Database.Database, chain: Chain, net: Network, minConfirmations: int, hi: nat,
                            a: nat, ghost branch: nat, ghost forked: seq<Row<BlockData>>)
    returns (o: Outcome, ghost synced: nat)
    requires chain.blockCount.Some? && hi == HeightLimit(chain.blockCount.value, minConfirmations)
    requires db.Valid() && Consistent(chain) && StoreSane(db, chain)
    requires db.blocks == Database.InvalidatedAbove(forked, a) && Agrees(db.blocks, chain, a)
    requires DbHeight(db.blocks, Some(a)) == a && Database.BestBlockHeight(db.blocks) == a
    requires Database.BestBranchSerial(db.branches) == Some(branch)
    modifies db
    ensures db.Valid() && StoreSane(db, chain)
    ensures o.Fail? ==> o.error == JsonRpcError || o.error == DbError || o.error == AssertionError || o.error == TypeError
    ensures o.Pass? ==>
      (forall h :: synced <= h <= hi ==> MirroredAt(db.blocks, chain, h)) &&
      Database.BestBlockHeight(db.blocks) >= hi && (a < hi ==> synced == a) &&
      db.branches == old(db.branches) && BranchAbove(db.blocks, a, branch) &&
      forall h: nat :: h <= a && MirroredAt(forked, chain, h) ==> MirroredAt(db.blocks, chain, h)
    decreases 0, 3
  {
    ghost var recovery;
    o, synced, recovery := SyncDb(db, chain, net, minConfirmations, Some(a));
    if o.Pass? {
      RewindThenGrowOnBranch(forked, db.blocks, chain, a, branch);
    }
  }

  /**
   * Two passes of the polling loop with no new block on the node: once the
   * first pass has run from the best stored height and succeeded, the second
   * finds the store already at the limit and writes nothing.
   */
  method SyncDbTwice(db: Database.Database, chain: Chain, net: Network, minConfirmations: int)
    returns (first: Outcome, second: Outcome, ghost between: Database.Snapshot)
    requires db.Valid() && Consistent(chain) && StoreSane(db, chain)
    modifies db
    ensures db.Valid() && StoreSane(db, chain)
    ensures first.Pass? ==> second.Pass? && db.Tables() == between
  {
    ghost var synced, recovery;
    first, synced, recovery := SyncDb(db, chain, net, minConfirmations, None);
    between := db.Tables();
    second, synced, recovery := SyncDb(db, chain, net, minConfirmations, None);
  }
}
