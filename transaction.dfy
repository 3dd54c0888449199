/**
 * The transaction record: built from the node's transaction, given a serial
 * when saved, and given its fee only by `updateFee`.
 */
module Transaction {
  import opened Records
  import opened Tables
  import Database

  class Transaction {
    var txSerial: Option<nat>
    var blockSerial: nat
    var txid: Hash
    var hash: Hash
    var body: TxBody
    var isCoinbase: bool
    var fee: Option<int>

    /** The columns `saveTransaction` inserts: the fee is not among them. */
    function Data(): TxData
      reads this
    {
      TxData(blockSerial, txid, hash, body, isCoinbase, None)
    }

    /** Copies the node's fields with the containing block's serial; the fee is unset. */
    constructor (blockSerialOfBlock: nat, tx: ChainTx, coinbaseTx: bool)
      ensures blockSerial == blockSerialOfBlock && txid == tx.txid && hash == tx.hash && body == tx.body
      ensures isCoinbase == coinbaseTx
      ensures txSerial.None? && fee.None?
    {
      blockSerial := blockSerialOfBlock;
      txid := tx.txid;
      hash := tx.hash;
      body := tx.body;
      isCoinbase := coinbaseTx;
      txSerial := None;
      fee := None;
    }

    /** `saveTransaction`: inserted as a valid row, whose serial it records. */
    method Save(db: Database.Database)
      requires db.Valid()
      modifies this`txSerial, db`txs, db`nextTxSerial
      ensures db.Valid()
      ensures db.nextTxSerial == old(db.nextTxSerial) + 1
      ensures txSerial == Some(old(db.nextTxSerial)) && FreshSerial(old(db.txs), txSerial.value)
      ensures db.txs == old(db.txs) + [Row(txSerial.value, true, Data())]
    {
      var serial := db.SaveTransaction(Data());
      txSerial := Some(serial);
    }

    /**
     * `updateFee`: records the fee (the integer value of the decimal string the
     * caller passes) on the object, then on the one valid stored row with this
     * transaction's serial.
     */
    method UpdateFee(db: Database.Database, amount: int) returns (o: Outcome)
      requires db.Valid()
      modifies this`fee, db`txs
      ensures db.Valid()
      ensures fee == Some(amount)
      ensures db.txs == Update(old(db.txs), Database.ValidSerial(txSerial), Database.SetFee(amount))
      ensures o.Pass? <==> exists i :: Database.OnlyMatch(old(db.txs), Database.ValidSerial(txSerial), i)
      ensures o.Fail? ==> o.error == DbError
    {
      fee := Some(amount);
      o := db.UpdateTransactionFee(txSerial, amount);
    }
  }
}
