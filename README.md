# Chain-sync and reorg engine of a Bitcoin indexer, in Dafny

This project models the part of a Bitcoin block-chain indexer that copies the
node's chain into a relational store and keeps it there when the chain
reorganises. The indexer is written in TypeScript over Postgres and a node's
JSON-RPC interface.

- **The store** (`database.dfy`) keeps six tables as sequences of rows:
  - `branch_btc`, `block_btc`, `tx_btc`, `output_btc`, `input_btc` and
    `output_address_btc`;
  - every row has a serial drawn from its table's sequence, and all rows but
    the branch rows carry an `_is_valid` flag.

  The queries are functions of the rows they read: `existsBlock`,
  `getBestBlockHeight`, `getBlockhashByHeight`,
  `getBlockBranchSerialByHeight`, `getBestBranchSerial`, `getOutputSerial`,
  `getOutputValue` and the bulk invalidation. The statements that insert or
  update rows are methods of the `Database` class, with the same exactly-one-row
  checks that raise `DbError`. BEGIN records a snapshot, COMMIT drops it, and
  ROLLBACK restores it. The serial sequences are not rolled back.
- **The records** (`block.dfy`, `transaction.dfy`, `output.dfy`) are classes
  whose fields the source fills in as it saves them:
  - a block takes the best branch serial and its own serial, then the
    coinbase input's sequence and script;
  - a transaction takes its serial and then its fee;
  - an output takes its serial.
- **The address classifier** (`address.dfy`) checks the address with the
  network library, then runs the prefix tests of a `switch` on the chain name.
  The switch has no `break`, so an address that matches no test of its case
  falls through to the next case. The classifier is proved equal to a
  first-match scan of a prefix-rule table.
- **The sync pass** (`app.dfy`) goes through these steps:
  - It computes the height window.
  - For each height it BEGINs a transaction and asks the node for the hash.
    It skips a block the store already holds. It raises a fork when a
    different valid block sits at that height. Otherwise it imports the
    node's block: its transactions, their outputs with their address rows,
    their inputs (each marking the output it spends) and their fees. The
    first transaction's coinbase is stored on the block.
  - It closes the transaction according to the error: COMMIT on success and
    on a fork, ROLLBACK on a failed request or query, and nothing on any
    other error.
  - On a fork it searches down for the best block the store shares with the
    chain. It adds a branch there, invalidates every block above it and runs
    the pass again from that height.

The node is a `Chain` value: the block count, `getblockhash` and `getblock`,
each of which may fail. The chain name and address validity of the network
library are a `Network` value. Neither is called; both are parameters.

What is proved, besides each operation's contract:
- The store keeps at most one valid block per height and a genesis block
  common with the chain.
- After a rewind, every valid block at or above the common ancestor is the
  chain's, and the ancestor is the best height.
- A successful pass that starts from the best stored height (a null or 0
  start height) mirrors every height of its window, with or without a fork.
  A fork there is raised at the start height, and the pass resumes from a
  common ancestor below it.
- After a fork, the recovery adds a branch at the common ancestor. Once the
  pass from the ancestor succeeds, every valid block above the ancestor is
  on that branch, and every height at or below it that was mirrored before
  stays mirrored.
- A fork can only be raised where the store disagreed with the chain from
  the start height on.
- A height that fails with a failed request or query is rolled back, and
  no transaction is left open. The tables are those from before the height
  or, when an earlier assertion or TypeError left a transaction open, the
  tables at that transaction's BEGIN.
- The down-search returns exactly the highest agreeing height.
- Every saved input records the one valid output it spends, and that
  output's value.
- A second pass over an unchanged chain writes nothing.

Five behaviours of the code are kept as written:
- **Early return.** The pass returns early when the start height is at
  least the limit (`dbHeight + 1 > heightLimit`). It does not wait for the
  start height to exceed the limit. So an empty store facing a chain whose
  limit is 0 imports nothing.
- **What invalidation touches.** Invalidation marks only block rows. The
  transactions, outputs and inputs of an invalidated block stay valid.
- **Errors that keep the transaction open.** An assertion failure or a
  TypeError is rethrown without a ROLLBACK, so the transaction stays open.
  The next BEGIN then changes nothing.
- **Double spends.** `saveInput` does not check whether the output is
  already spent.
- **No root branch.** Nothing inserts a first row into `branch_btc`. While
  that table is empty, `getBestBranchSerial` is null and every block is
  saved with a null branch. A fork met in that state cannot be recovered:
  `getBlockBranchSerialByHeight` (src/Database.ts:208-217) throws `DbError`
  for the common ancestor. This is App.NullBranchGrowthBlocksRecovery and
  a clause of App.RecoverFromFork.

## Model

| member | source | states |
|---|---|---|
| Records.OrNull | src/app.ts:88-89 | the stored field reads back as the string, with null standing for the empty string; an empty string is never stored |
| Tables.Select | src/Database.ts:197-206 | a SELECT ... WHERE returns exactly the matching rows, no more rows than the table has, and its first row is the first matching row of the table |
| Tables.Update | src/Database.ts:118-127 | an UPDATE ... WHERE keeps every row's serial and validity, applies the SET to the matching rows and leaves every other row unchanged |
| Database.SelectExactlyOne | src/Database.ts:229-232 | a statement checked for one row returns one row if and only if exactly one row matches |
| Database.ExistsBlock | src/Database.ts:83-99 | `existsBlock`: false exactly when no valid block has the height; ForkDetectedError exactly when no valid block has the hash there but one has another hash; the assertion fails exactly when two valid rows have the height and hash; true only when such a row exists |
| Database.ExistsBlockUnique | src/Database.ts:83-99 | with one valid block per height the assertion never fails, and a valid block with the hash makes the answer true |
| Database.BestBlockHeight | src/Database.ts:187-195 | `getBestBlockHeight` is at least every valid block's height, and a nonzero answer is the height of some valid block |
| Database.BlockhashByHeight | src/Database.ts:197-206 | `getBlockhashByHeight` fails only with DbError, does so when no valid block has the height, and otherwise returns the nonempty hash of a valid block at that height |
| Database.BlockhashOfUniqueBlock | src/Database.ts:197-206 | with one valid block per height, the answer is that block's hash, or DbError when the hash is empty |
| Database.BlockBranchSerialByHeight | src/Database.ts:208-217 | `getBlockBranchSerialByHeight` fails only with DbError, does so when no valid block has the height, and otherwise returns the nonzero branch serial of a valid block at that height |
| Database.BranchSerialOfUniqueBlock | src/Database.ts:208-217 | with one valid block per height, the answer is that block's branch, or DbError when the branch is null or 0 |
| Database.BestBranchSerial | src/Database.ts:169-173 | `getBestBranchSerial` is null exactly for an empty branch table, and otherwise the greatest branch serial |
| Database.OutputSerial | src/Database.ts:225-234 | `getOutputSerial` succeeds if and only if exactly one valid output has the vout and a transaction with the txid, and then returns that output's serial; it fails only with DbError |
| Database.OutputValue | src/Database.ts:236-245 | `getOutputValue` succeeds if and only if exactly one valid output has the serial, and then returns its value; it fails only with DbError |
| Database.UpdateFreshRow | src/Database.ts:118-127 | a row just inserted under a fresh serial is the only valid row with that serial, and an update by that serial changes it alone |
| Database.OutputSerialIgnoresFees | src/Database.ts:225-234 | setting transaction fees does not change which output `getOutputSerial` finds |
| Database.InvalidatedAbove | src/Database.ts:219-223 | invalidation removes no row and changes no data; it makes every block above the height invalid and leaves the rest unchanged |
| Database.InvalidatePreservesUnique | src/Database.ts:219-223 | invalidation keeps at most one valid block per height |
| Database.InvalidateCapsBestHeight | src/Database.ts:219-223 | after invalidating above a height, the best valid height is at most that height |
| Database.InvalidateKeepsLowerHeights | src/Database.ts:219-223 | invalidation changes no answer of the hash and branch lookups at or below the cut |
| Database.AddressRows | src/Database.ts:134-140 | there are at most as many address rows as addresses; each names the output, is valid, and carries the address at its index with the type the classifier gives it |
| Database.AddressRowsComplete | src/Database.ts:134-140 | every address the classifier accepts has a row with its index |
| Database.AddressRowsOrdered | src/Database.ts:134-140 | the rows follow the order of the address list, with at most one row per index |
| Database.NewBranchIsBest | src/Database.ts:169-185 | a branch inserted with a serial above every existing one becomes the best branch |
| Database.Database.constructor | src/Database.ts:37-48 | a fresh store: empty tables, every serial sequence at 1 and no open transaction; `init` itself only connects, so the empty tables are the state of a new database, not something `init` does |
| Database.Database.BeginTransaction | src/Database.ts:59-63 | BEGIN records the tables, and changes nothing inside an open transaction |
| Database.Database.CommitTransaction | src/Database.ts:65-69 | COMMIT keeps the tables and closes the transaction |
| Database.Database.RollbackTransaction | src/Database.ts:71-75 | ROLLBACK restores the tables BEGIN recorded and closes the transaction |
| Database.Database.SaveBlock | src/Database.ts:101-108 | `saveBlock` appends one valid row under a fresh serial and returns that serial |
| Database.Database.SaveTransaction | src/Database.ts:110-116 | `saveTransaction` appends one valid row under a fresh serial and returns that serial |
| Database.Database.UpdateTransactionFee | src/Database.ts:118-127 | `updateTransactionFee` sets the fee on the valid rows with the serial, and passes if and only if exactly one row matched; otherwise DbError |
| Database.Database.SaveOutput | src/Database.ts:129-142 | `saveOutput` appends one valid row under a fresh serial, then the address rows when the output has addresses |
| Database.Database.SaveAddresses | src/Database.ts:134-140 | the loop over the addresses appends exactly the address rows of the list, in order |
| Database.Database.SaveInput | src/Database.ts:144-156 | `saveInput` appends the input under a fresh serial and marks the output with that serial spent; it succeeds if and only if exactly one valid output has that serial; otherwise DbError |
| Database.Database.MarkOutputSpent | src/Database.ts:149-154 | the UPDATE of `saveInput` marks the valid outputs with the serial spent, and passes if and only if exactly one matched |
| Database.Database.UpdateBlockCoinbase | src/Database.ts:158-167 | `updateBlockCoinbase` sets sequence and coinbase on the valid blocks with the hash, and passes if and only if exactly one matched |
| Database.Database.AddNewBranch | src/Database.ts:176-185 | `addNewBranch` appends the branch (fork height, parent) under a fresh serial, which becomes the best branch serial |
| Database.Database.InvalidateBlocksHigherThan | src/Database.ts:219-223 | the block table becomes its invalidation above the height; nothing else changes |
| Block.Block.constructor | src/Block.ts:31-50 | a new block copies the node's hash, height and header, and has no branch, serial or coinbase |
| Block.Block.Save | src/Block.ts:56-66 | saving puts the block on the best branch and appends it as a valid row under a fresh serial, which the block records |
| Block.Block.UpdateCoinbase | src/Block.ts:68-72 | the block and the one valid stored block with its hash get the sequence and coinbase; the update fails with DbError unless exactly one row matched |
| Transaction.Transaction.constructor | src/Transaction.ts:21-33 | a new transaction copies the node's fields and the block serial, with no serial and no fee |
| Transaction.Transaction.Save | src/Transaction.ts:35-38 | saving appends the transaction as a valid row, without a fee, under a fresh serial, which it records |
| Transaction.Transaction.UpdateFee | src/Transaction.ts:44-47 | the transaction and its one valid stored row get the fee; the update fails with DbError unless exactly one row matched |
| Output.Output.constructor | src/Output.ts:23-36 | a new output copies its arguments and is unspent, with no spender and no serial |
| Output.Output.Save | src/Output.ts:38-41 | saving appends the output row under a fresh serial, which it records, followed by its address rows |
| Address.GetAddressType | src/Address.ts:26-66 | an address the network rejects raises InvalidAddressError with the address and chain, and only then; the other error is the assertion; a chain with no case always reaches the assertion |
| Address.GetAddressTypeIsFirstMatch | src/Address.ts:33-66 | the switch with fall-through classifies a valid address exactly like the first matching rule among the rules of its case and every later case |
| Address.MainFallsThroughToTest | src/Address.ts:34-44 | on main, an address with none of the main prefixes is classified by the test case |
| Address.TestFallsThroughToRegtest | src/Address.ts:44-54 | on test, a `bcrt` address falls through to the regtest case and is bech32 |
| Address.RegtestRejectsTestnetBech32 | src/Address.ts:54-66 | on regtest, a `tb` address reaches the unreachable assertion |
| App.HeightLimit | src/app.ts:26 | the limit is the block count less the confirmations, floored at 0 |
| App.DbHeight | src/app.ts:24 | a nonzero start height is used as given; a null or 0 one gives the greatest valid stored height, which is at least every valid block's height and, unless 0, the height of a valid block |
| App.CommonAncestorSound | src/Block.ts:74-90 | the down-search fails only on a failed request or with the store's error at a height it visited; its answer is at or below the start, the hashes agree there (or it is 0), and they differ at every height above it |
| App.CommonAncestorFindsHighestAgreement | src/Block.ts:79-84 | when the hashes agree at `k` and differ at every height above `k` up to the start, the search returns `k` |
| App.GetHeightOfBestBlockCommonWithChain | src/Block.ts:75-90 | the search from the best valid height returns the common ancestor |
| App.SearchDown | src/Block.ts:76-89 | the loop that steps down while the hashes differ and the height is above 0 returns the common ancestor of its start |
| App.StoredHashOfUniqueBlock | src/Database.ts:197-206 | with one valid block per height, a successful hash lookup reads that block's hash |
| App.RewoundStoreAgrees | src/app.ts:112-117 | after invalidating above the common ancestor, the valid blocks at or above it are the chain's, the ancestor is the best height, and uniqueness and the common genesis block are kept |
| App.RecoverFromFork | src/app.ts:110-117 | the fork handler returns the common ancestor `a`, adds branch (`a`, branch of the block at `a`), which becomes the best branch, and invalidates above `a`; after it the store agrees with the chain from `a` and `a` is the best height; a failed lookup writes nothing, and a store whose valid blocks all have a null branch always fails |
| App.Rewind | src/app.ts:115-117 | adds the branch, which becomes the best branch, and invalidates above the ancestor, keeping the store sane and in agreement with the chain from the ancestor |
| App.ReqSigs | src/app.ts:65 | the stored count reads back as the node's count, with null standing for 0; a 0 is never stored |
| App.ScriptAsm | src/app.ts:88 | the stored asm reads back as the input script's asm, with null standing for a missing script or an empty asm; an empty asm is never stored |
| App.ScriptHex | src/app.ts:89 | the stored hex reads back as the input script's hex, with null standing for a missing script or an empty hex; an empty hex is never stored |
| App.SpendingKeepsKeys | src/Database.ts:149-151 | marking an output spent changes no row's serial, validity, transaction, position or value |
| App.SpendingKeepsResolved | src/app.ts:80-92 | an input row still names the one output that (txid, vout) finds, and that output's value, after that output is marked spent by it |
| App.LookupsIgnoreSpending | src/Database.ts:225-245 | marking outputs spent changes neither `getOutputSerial` nor `getOutputValue` |
| App.ImportOutput | src/app.ts:58-70 | one output is saved unspent under the next output serial |
| App.ImportOutputs | src/app.ts:55-72 | the loop appends exactly the transaction's output rows, in order: row `m` is the `m`th output (its vout, value, required signatures and script), under the `m`th next serial, valid and unspent; its total is the sum of their values |
| App.AllResolvedIgnoresSpending | src/app.ts:73-95 | the input rows saved so far stay resolved when outputs are marked spent |
| App.SaveResolvedInput | src/app.ts:82-92 | saving an input whose output was found appends it under the next input serial, marks the valid output with that serial spent by it, and leaves it resolved with that output's value |
| App.MarkSpentByMarks | src/app.ts:73-95 | after the spend updates of a list of input rows, every valid output some row names is spent, by the serial of a row that names it; every other output is unchanged |
| App.MarkSpentByKeepsKeys | src/Database.ts:149-154 | the spend updates of a list of input rows change no output's serial, validity, transaction, position or value |
| App.ImportInput | src/app.ts:77-93 | one input: DbError when its output or value cannot be found or the spend update fails; otherwise one row under the next serial with the transaction serial, position, sequence, script asm and hex and witness of the node's input and the found output's serial and value, which is returned; that output is marked spent by the row |
| App.ImportNextInput | src/app.ts:73-95 | one pass of the input loop appends the row of the next input, with the node's fields and consecutive serial, and applies its spend mark |
| App.ImportInputs | src/app.ts:73-95 | the loop appends one row per input, in order, under consecutive serials, with the node's fields and the spent output; the outputs are the old ones with each row's spend mark applied in turn; the rows stay resolved and the result is the sum of the spent outputs' values; it fails only with DbError |
| App.AllResolvedIgnoresFees | src/app.ts:96-98 | setting the fee leaves every saved input row resolved |
| App.CoinbaseShape | src/app.ts:45-49 | the first transaction passes the two assertions if and only if it has exactly one input and that input has a coinbase; with no input it fails with a TypeError |
| App.ImportSpends | src/app.ts:73-98 | a later transaction gets one row per input, with the node's fields, resolved, and its spend marks; its fee is the input total less the output total |
| App.SaveFee | src/app.ts:96-98 | the fee update sets the fee on the transaction and on its row, the last of the table, and leaves the inputs resolved |
| App.SaveTransactionAndOutputs | src/app.ts:51-72 | the transaction is saved without a fee under a fresh serial, followed by exactly its output rows, unspent, and the result is their total |
| App.ImportTransaction | src/app.ts:43-99 | the first transaction failing its assertions writes nothing; it stores the coinbase on the block and no input; every transaction appends its row and its output rows; a later transaction leaves the block table alone, appends one row per input with the node's fields, marks the spent outputs, and gets the fee input total less output total |
| App.ImportCoinbaseTransaction | src/app.ts:45-76 | the coinbase transaction: the assertions, then its row and exactly its output rows, then the coinbase on the block |
| App.ImportRegularTransaction | src/app.ts:77-98 | a later transaction: its row, exactly its output rows, one input row per input with the node's fields, the spend marks of those rows, and the fee |
| App.CoinbaseKeepsKeys | src/Database.ts:158-167 | the coinbase update changes no block's serial, validity, height, hash or branch |
| App.ImportNthTransaction | src/app.ts:43-100 | one pass of the transaction loop adds the row of the `j`th transaction; only the first one is marked coinbase, and it puts its coinbase on the block |
| App.ImportBlock | src/app.ts:39-100 | the block is appended on the best branch with the node's hash and height; on success one row per transaction, in order, with the coinbase on the block |
| App.ImportTransactions | src/app.ts:42-100 | the loop adds one transaction row per transaction, in order, only the first marked coinbase, and keeps the block rows' keys |
| App.GrowthKeepsAgreement | src/app.ts:38-101 | adding blocks along the chain keeps agreement, the common genesis block and every mirrored height |
| App.ImportKeepsUnique | src/app.ts:38-41 | a block added at a height with no valid block keeps one valid block per height |
| App.ImportedBlockAlongChain | src/app.ts:36-41 | importing the node's block at an empty height grows the store along the chain and mirrors that height |
| App.NullBranchGrowthBlocksRecovery | src/Database.ts:208-217 | a store grown on a null branch from one whose valid blocks have null branches has no height whose branch serial can be read |
| App.RewindThenGrowOnBranch | src/app.ts:115-119 | after invalidating above `a` and growing on branch `s`, every valid block above `a` is on `s`, and every height at or below `a` that was mirrored stays mirrored |
| App.SyncHeight | src/app.ts:36-101 | a failed hash request or a block already held writes nothing; a fork writes nothing and shows a valid block with another hash; with a consistent node the store grows along the chain, stays unique, and a success mirrors the height |
| App.CloseTransaction | src/app.ts:102-128 | COMMIT on success and on a fork, ROLLBACK to the BEGIN snapshot on a failed request or query, nothing on any other error |
| App.SyncStep | src/app.ts:35-128 | one height in its own transaction: a success mirrors the height and closes the transaction; a fork closes it, showing a block with another hash; a failed request or query rolls the height back, leaving the tables as they were before it (or at the BEGIN of a transaction already open) with no transaction open |
| App.SyncOpenHeight | src/app.ts:35-101 | BEGIN and one height keep the store and its snapshot sane and grow the store along the chain; the snapshot is the tables from before the height, or the one already taken when a transaction was open |
| App.ForkBreaksAgreement | src/Database.ts:87-91 | a valid block at or above the start height with a hash other than the chain's breaks agreement from the start |
| App.SyncHeights | src/app.ts:34-128 | the loop mirrors every height of the window, raises the best height to the limit, adds only the chain's blocks on the best branch and keeps the branches; a fork is raised at a height of the window only when the store disagreed with the chain from the start height, mirrors every height below it, and is raised at the start height with nothing written when the start height was at least the best height; a failed request or query at some height of the window leaves no transaction open and the heights below it mirrored, and at the first height it leaves the tables as they were |
| App.SyncNextHeight | src/app.ts:34-128 | one pass of the loop extends the mirrored heights by one, on the best branch, or raises a fork at that height only when the store disagreed with the chain from the start height; a failed request or query rolls the height back to the tables from before it (or, when an earlier assertion or TypeError left a transaction open, to that transaction's BEGIN snapshot), keeping the heights below it mirrored |
| App.ForkAtOldHeight | src/Database.ts:87-91 | a fork can only be raised at a height no higher than the best height the pass started with |
| App.ForkStopsPass | src/Database.ts:87-91 | a fork raised during a pass breaks agreement from the start height, and is at the start height when that was at least the best height |
| App.ForkAtBestRewindsBelow | src/Block.ts:74-90 | a fork at or above the best height makes the down-search return a height below the fork |
| App.RewoundWindowMirrored | src/app.ts:104-119 | the heights mirrored below the fork that are at or below the ancestor, with the heights the pass from the ancestor mirrored, cover the whole window |
| App.MirroredRaisesBest | src/Database.ts:187-195 | a mirrored height is at most the best valid height |
| App.SyncDb | src/app.ts:20-132 | a failed block count writes nothing; a start height at or above the limit writes nothing; a success mirrors every height from where the last pass started to the limit; without a fork that is the start height, and when the store agreed with the chain from there it only added the chain's blocks on the best branch; after a fork recovery the pass from the ancestor resumes there, below a fork at the best height, the new branch is the best branch and holds every valid block above the ancestor; with a null or 0 start height the whole window is mirrored |
| App.SyncWindow | src/app.ts:33-131 | the `try` and its fork handler fail only with a failed request or query, an assertion or a TypeError; a success mirrors every height from where the last pass started up to the limit and raises the best height to the limit; without a fork the last pass is this one; a fork is in the window, and at its start with the ancestor below it when the start was at least the best height; the new branch holds every valid block above the ancestor |
| App.HandleFork | src/app.ts:105-119 | after a fork, the handler rewinds to the common ancestor of the best stored height, adds the branch (ancestor, its block's branch) as the best branch, and runs the pass again from the ancestor; a success mirrors every height from the ancestor up to the limit, puts every valid block above the ancestor on the new branch and keeps every mirrored height at or below it |
| App.ResyncFromAncestor | src/app.ts:119 | the recursive pass from the ancestor mirrors every height from it to the limit, keeps the branches, puts every new block on the new branch and keeps the mirrored heights at or below the ancestor |
| App.SyncDbTwice | src/app.ts:143-151 | after a successful pass, a second pass over the same chain succeeds and writes nothing |

## Left out

- The database connection, the pool, `shutdown` and logging are not modelled. A query the server itself rejects (a lost connection, a violated constraint) is not modelled either: the only `DbError`s are those raised by the source's own row-count and null checks.
- The JSON-RPC client is not modelled. Its answers are the `Chain` parameter, where `None` stands for a `JsonRpcError`.
- `Address.init` is not modelled. The chain name it reads and the network library's validity check are the `Network` parameter.
- The conversion of BTC amounts to satoshis (`Big` times 1e8, then `parseInt`) is not modelled. Chain output values are given in satoshis.
- The fee is passed as an integer; the decimal string `updateFee` parses is not modelled.
- Integers are unbounded; the precision limits of JavaScript numbers are not modelled.
- Concurrency is not modelled:
  - The un-awaited `Block.invalidateHigherThan` (src/app.ts:117) runs before the recursive pass.
  - The un-awaited per-address inserts of `saveOutput` run in order.
  - An address the classifier rejects adds no row, and the pass carries on. In the source the rejection escapes its `forEach` callback unawaited, so the sync loop never sees it; what happens next depends on the process's handler for unhandled rejections, and under Node's default since version 15 the process exits. The model assumes a handler that lets the process go on.
- The endless polling loop and its `sleep` are not modelled. App.SyncDbTwice covers two consecutive passes.
- `Branch.ts` and `Input.ts` are not part of this model. Their call sites are modelled directly:
  - `Branch.addNew` is `AddNewBranch`;
  - `Branch.getBestSerial` is `BestBranchSerial`;
  - an `Input` is the `InputData` row `saveInput` inserts.

  As written, neither call site works. `Branch.ts` defines `addNew` and `getBestId`, not the `getBestSerial` that src/Block.ts:57 calls, and `getBestId` calls a `Database.getBestBranchId` that does not exist. The `Input` constructor (src/Input.ts:19-31) sets neither `_txSerial` nor `_outOutputSerial`, which src/Database.ts:147 and :150 read. The model follows the evident intent of both call sites: the block takes the best branch serial, and the input row carries the transaction serial and the serial of the output it spends.
- `Block.exists`, `Block.getBranchSerialByHeight`, `Block.invalidateHigherThan`, `Output.getSerial` and `Output.getValue` are one-line forwards to the store. They are modelled by the store functions they call: ExistsBlock, BlockBranchSerialByHeight, InvalidateBlocksHigherThan, OutputSerial and OutputValue.
- Database.Database.AddNewBranch never fails. The `DbError` at src/Database.ts:180-182 needs an insert that returns no serial, or serial 0, and the serial sequences start at 1.
- App.SyncDb, App.SyncWindow, App.HandleFork, App.SyncHeights, App.SyncStep and App.SyncOpenHeight require two things the source does not check:
  - the node answers `getblock(getblockhash(h))` with the block at height `h` (`Consistent`);
  - the store has one valid block per height and a genesis block common with the chain (`StoreSane`).

  These are assumptions about the environment. Without them, a pass that rewinds need not terminate.
- App.RecoverFromFork and App.Rewind require the same sanity of the block table.
- App.ImportOutput and App.ImportOutputs state the output rows but not the address rows. Output.Output.Save and Database.Database.SaveOutput state those.
- App.ImportBlock, App.ImportTransactions and App.ImportNthTransaction state the transaction rows by block, txid and coinbase flag, and the block's keys and coinbase. They do not state the outputs and inputs. App.ImportTransaction states the output rows, the input rows and the spend marks of one transaction.
- App.ImportInput, App.ImportInputs and App.ImportTransaction name the spent output of each input row by the row's own output serial. That the serial is the one `getOutputSerial` finds for the input's txid and vout is the separate resolution clause.
- App.SyncDb and App.SyncWindow state that the whole window is mirrored only when there was no fork or the ancestor lies below the fork height. With a start height below the best height, a fork can be raised above the common ancestor of the best height, and the down-search, which starts at the best height and compares only hashes, can stop at a stored block above the fork. The blocks from the fork up to that height are then kept, and the heights in between are not stated. A null or 0 start height always starts at the best height, and then the whole window is mirrored.
- App.SyncDb and App.SyncWindow state what a successful pass mirrors. They do not state which rows a failed pass leaves behind, beyond the sanity of the store.
- App.SyncHeights states that a pass failing with a failed request or query leaves no open transaction, still mirrors every height before the failed one, and adds only the chain's blocks on the best branch. It states that the failed height left no row only when that height is the first of the window. App.SyncNextHeight states it for every height: after such a failure the tables are those from before the height, or the snapshot of a transaction that was already open.
