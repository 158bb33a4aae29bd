/** The contract's keyed storage and the token it pays with. */
module PoolStorage {
  import opened Codec
  import opened InputCodec
  import opened Ledger
  import opened Numbers
  import opened Wrappers

  class Storage {
    // Instance storage; `config` holds the entries that initialize writes once.
    var config: Option<Config>
    var nextLeafIndex: u32
    var rootHistoryIndex: u32
    // Persistent storage: one field per key family of DataKey.
    var nodes: map<(nat, nat), Bytes32>
    var rootEntries: map<nat, Bytes32>
    var spent: set<Bytes32>
    var inserted: set<Bytes32>

    constructor ()
      ensures config == None && nextLeafIndex == 0 && rootHistoryIndex == 0
      ensures nodes == map[] && rootEntries == map[] && spent == {} && inserted == {}
    {
      config := None;
      nextLeafIndex, rootHistoryIndex := 0, 0;
      nodes, rootEntries := map[], map[];
      spent, inserted := {}, {};
    }
  }

  class Token {
    var balances: Balances

    constructor (balances: Balances)
      ensures this.balances == balances
    {
      this.balances := balances;
    }

    /** Moves the amount, or traps and leaves every balance alone. */
    method Move(from: Address, to: Address, amount: i128) returns (ok: bool)
      modifies this
      ensures match Transfer(old(balances), from, to, amount)
        case Some(after) => ok && balances == after
        case None => !ok && balances == old(balances)
    {
      if amount < 0 || Balance(balances, from) < amount {
        return false;
      }
      var debited := balances[from := Balance(balances, from) - amount];
      if Balance(debited, to) + amount > I128_MAX {
        return false;
      }
      balances := debited[to := Balance(debited, to) + amount];
      ok := true;
    }
  }
}
