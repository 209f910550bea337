/** The panics of the two engines' `main`, as values. None of them names the key that
    was missing: the Rust messages do not either. */
module Panics {

  datatype Panic =
    | EmptyVaultList            // `vaults[vault_id].vaults[0]` on a history entry with no vault
    | MissingCollateralType     // `row.vaultsAtFirstBlock["ETH-A"]` (or the second block's)
    | MissingLiquidationEntry   // `liquidationTimestampListByVault[&vault.id]`
    | MissingInSecondSnapshot   // `secondvaultsById[&vault.id]`
}
