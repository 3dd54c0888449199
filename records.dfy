/**
 * The values the indexer handles: the rows of its five tables (branch, block,
 * tx, output, input) and of the output-address table, the errors it raises,
 * and the node's view of the chain.
 */
module Records {

  datatype Option<+T> = None | Some(value: T)

  /** The exceptions of the indexer, as tags. */
  datatype Error =
    | DbError                                      // a query failed, or an exactly-one-row check did not hold
    | ForkDetected(forkHeight: nat)                // a valid stored block at this height has another hash
    | JsonRpcError                                 // a request to the node failed
    | AssertionError                               // a Node.js `assert` fired
    | TypeError                                    // a property was read from `undefined`
    | InvalidAddressError(address: string, network: string)

  /** The value of an async function that may throw. */
  datatype Result<+T> = Ok(value: T) | Err(error: Error)

  /** The value of an async function returning `void` that may throw. */
  datatype Outcome = Pass | Fail(error: Error)

  type Hash = string

  /** A JavaScript value is falsy when it is null, 0 or the empty string. */
  predicate TruthyNat(x: Option<nat>) { x.Some? && x.value != 0 }

  /** `s || null` for a string: the empty string becomes null. */
  function OrNull(s: string): (r: Option<string>)
    ensures (if r.Some? then r.value else "") == s
    ensures r != Some("")
  {
    if s == "" then None else Some(s)
  }

  // ---------------------------------------------------------------------------
  // Table rows
  // ---------------------------------------------------------------------------

  /** A row of a table with a serial primary key and an `_is_valid` flag. */
  datatype Row<T> = Row(serial: nat, isValid: bool, data: T)

  /** A row of `branch_btc`: the fork height and the branch it forked from. */
  datatype BranchRow = BranchRow(serial: nat, forkHeight: nat, parentBranchSerial: nat)

  /** The pass-through fields of a block that the indexer stores unchanged. */
  datatype BlockHeader = BlockHeader(
    strippedSize: int, size: int, weight: int, version: int, versionHex: string,
    merkleRoot: string, time: int, medianTime: int, nonce: int, bits: string,
    difficulty: string, chainwork: string, nTx: int, previousBlockhash: Option<Hash>)

  /** The columns of `block_btc` besides the serial and the validity flag. */
  datatype BlockData = BlockData(
    branchSerial: Option<nat>, blockhash: Hash, height: nat, header: BlockHeader,
    sequence: Option<int>, coinbase: Option<string>)

  /** The pass-through fields of a transaction. */
  datatype TxBody = TxBody(size: int, vsize: int, weight: int, version: int, locktime: int, hex: string)

  /** The columns of `tx_btc` besides the serial and the validity flag. */
  datatype TxData = TxData(
    blockSerial: nat, txid: Hash, hash: Hash, body: TxBody, isCoinbase: bool, fee: Option<int>)

  /** The script of an output. */
  datatype Script = Script(asm: string, hex: string, scriptType: string)

  /** The columns of `output_btc` besides the serial and the validity flag. */
  datatype OutputData = OutputData(
    txSerial: nat, vout: nat, value: int, reqSigs: Option<nat>, script: Script,
    spentByInputSerial: Option<nat>, isSpent: bool)

  /** The columns of `input_btc` besides the serial and the validity flag. */
  datatype InputData = InputData(
    txSerial: nat, vin: nat, outOutputSerial: nat, outValue: int, sequence: int,
    scriptAsm: Option<string>, scriptHex: Option<string>, txInWitness: Option<seq<string>>)

  datatype AddressType = Legacy | P2shSegwit | Bech32

  /** A row of `output_address_btc`. */
  datatype AddressRow = AddressRow(outputSerial: nat, addr: string, addrIdx: nat, addrType: AddressType, isValid: bool)

  // ---------------------------------------------------------------------------
  // The node's view of the chain
  // ---------------------------------------------------------------------------

  /** `scriptSig` of a chain input. */
  datatype ScriptSig = ScriptSig(asm: string, hex: string)

  /**
   * An input as the node reports it; `coinbase` is the empty string when the
   * input has none, and `txid`/`vout` name the output it spends.
   */
  datatype ChainVin = ChainVin(
    coinbase: string, txid: Hash, vout: nat, sequence: int,
    scriptSig: Option<ScriptSig>, txinwitness: Option<seq<string>>)

  /** An output as the node reports it, its value already in satoshis. */
  datatype ChainVout = ChainVout(
    n: nat, value: int, addresses: Option<seq<string>>, reqSigs: nat, script: Script)

  datatype ChainTx = ChainTx(txid: Hash, hash: Hash, body: TxBody, vin: seq<ChainVin>, vout: seq<ChainVout>)

  datatype ChainBlock = ChainBlock(hash: Hash, height: nat, header: BlockHeader, tx: seq<ChainTx>)

  /**
   * The node's RPC interface during one pass: `getblockcount`, `getblockhash`
   * and `getblock` (verbosity 2). `None` is a failed request.
   */
  datatype Chain = Chain(
    blockCount: Option<int>,
    blockHash: nat -> Option<Hash>,
    getBlock: Hash -> Option<ChainBlock>)

  /** The node answers `getblock(getblockhash(h))` with the block of that hash at height `h`. */
  ghost predicate Consistent(chain: Chain) {
    forall h: nat {:trigger chain.blockHash(h)} ::
      chain.blockHash(h).Some? && chain.getBlock(chain.blockHash(h).value).Some? ==>
        chain.getBlock(chain.blockHash(h).value).value.hash == chain.blockHash(h).value &&
        chain.getBlock(chain.blockHash(h).value).value.height == h
  }

  /** The node's address validity check for its network (a foreign library). */
  datatype Network = Network(name: string, isValid: string -> bool)
}
