/**
 * The block record: built from the node's block, given the best branch serial
 * and a serial when saved, and given the coinbase input's sequence and script
 * when its coinbase transaction is imported.
 */
module Block {
  import opened Records
  import opened Tables
  import Database

  class Block {
    var blockSerial: Option<nat>
    var branchSerial: Option<nat>
    var blockhash: Hash
    var height: nat
    var header: BlockHeader
    var sequence: Option<int>
    var coinbase: Option<string>

    /** The columns `saveBlock` inserts: sequence and coinbase are not among them. */
    function Data(): BlockData
      reads this
    {
      BlockData(branchSerial, blockhash, height, header, None, None)
    }

    /** Copies the node's fields; the branch is null until the block is saved. */
    constructor (cb: ChainBlock)
      ensures blockhash == cb.hash && height == cb.height && header == cb.header
      ensures branchSerial.None? && blockSerial.None?
      ensures sequence.None? && coinbase.None?
    {
      blockhash := cb.hash;
      height := cb.height;
      header := cb.header;
      branchSerial := None;
      blockSerial := None;
      sequence := None;
      coinbase := None;
    }

    /**
     * `setBranch` then `saveBlock`: the block joins the best branch and is
     * inserted as a valid row, whose serial it records.
     */
    method Save(db: Database.Database)
      requires db.Valid()
      modifies this`branchSerial, this`blockSerial, db`blocks, db`nextBlockSerial
      ensures db.Valid()
      ensures branchSerial == Database.BestBranchSerial(db.branches)
      ensures db.nextBlockSerial == old(db.nextBlockSerial) + 1
      ensures blockSerial == Some(old(db.nextBlockSerial)) && FreshSerial(old(db.blocks), blockSerial.value)
      ensures db.blocks == old(db.blocks) + [Row(blockSerial.value, true, Data())]
    {
      branchSerial := Database.BestBranchSerial(db.branches);
      var serial := db.SaveBlock(Data());
      blockSerial := Some(serial);
    }

    /**
     * Records the coinbase input's sequence and script on the object, then on
     * the one valid stored block with this hash.
     */
    method UpdateCoinbase(db: Database.Database, seqNum: int, script: string) returns (o: Outcome)
      requires db.Valid()
      modifies this`sequence, this`coinbase, db`blocks
      ensures db.Valid()
      ensures sequence == Some(seqNum) && coinbase == Some(script)
      ensures db.blocks == Update(old(db.blocks), Database.ValidBlockhash(blockhash), Database.SetCoinbase(seqNum, script))
      ensures o.Pass? <==> exists i :: Database.OnlyMatch(old(db.blocks), Database.ValidBlockhash(blockhash), i)
      ensures o.Fail? ==> o.error == DbError
    {
      sequence := Some(seqNum);
      coinbase := Some(script);
      o := db.UpdateBlockCoinbase(blockhash, seqNum, script);
    }
  }
}
