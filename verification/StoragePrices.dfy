/** What storage writes cost and refund (core/vm/constants.go). */
module StoragePrices {
  const NOOP_GAS: nat := 200
  const INIT_GAS: nat := 20000
  const CLEAN_GAS: nat := 5000
  const DIRTY_GAS: nat := 200
  const CLEAR_REFUND: nat := 15000
  const RESET_REFUND: nat := 4800
  const RESET_CLEAR_REFUND: nat := 19800
  const SUICIDE_REFUND: nat := 24000
}
