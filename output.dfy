/**
 * The output record: built unspent from the node's output and given a serial
 * when saved.
 */
module Output {
  import opened Records
  import opened Tables
  import Database

  class Output {
    var outputSerial: Option<nat>
    var txSerial: nat
    var isCoinbase: bool
    var vout: nat
    var value: int
    var addresses: Option<seq<string>>
    var reqSigs: Option<nat>
    var script: Script
    var spentByInputSerial: Option<nat>
    var isSpent: bool

    /** The columns `saveOutput` inserts. */
    function Data(): OutputData
      reads this
    {
      OutputData(txSerial, vout, value, reqSigs, script, spentByInputSerial, isSpent)
    }

    /** Copies its arguments; a new output is unspent and has no spender. */
    constructor (txSerialOfTx: nat, coinbaseTx: bool, n: nat, amount: int, addrs: Option<seq<string>>,
                 sigs: Option<nat>, pubKey: Script)
      ensures txSerial == txSerialOfTx && isCoinbase == coinbaseTx && vout == n && value == amount
      ensures addresses == addrs && reqSigs == sigs && script == pubKey
      ensures !isSpent && spentByInputSerial.None? && outputSerial.None?
    {
      txSerial := txSerialOfTx;
      isCoinbase := coinbaseTx;
      vout := n;
      value := amount;
      addresses := addrs;
      reqSigs := sigs;
      script := pubKey;
      spentByInputSerial := None;
      isSpent := false;
      outputSerial := None;
    }

    /** `saveOutput`: inserted as a valid row, with its address rows; it records the serial. */
    method Save(db: Database.Database, net: Network)
      requires db.Valid()
      modifies this`outputSerial, db`outputs, db`nextOutputSerial, db`addresses
      ensures db.Valid()
      ensures db.nextOutputSerial == old(db.nextOutputSerial) + 1
      ensures outputSerial == Some(old(db.nextOutputSerial)) && FreshSerial(old(db.outputs), outputSerial.value)
      ensures db.outputs == old(db.outputs) + [Row(outputSerial.value, true, Data())]
      ensures db.addresses == old(db.addresses) +
        if addresses.Some? then Database.AddressRows(outputSerial.value, addresses.value, |addresses.value|, net) else []
    {
      var serial := db.SaveOutput(Data(), addresses, net);
      outputSerial := Some(serial);
    }
  }
}
