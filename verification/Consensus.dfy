/** The limits that several parts share. */
module Consensus {

  const MAX_BLOCK_WEIGHT := 4000000
  const MAX_BLOCK_SIGOPS_COST := 80000
  const WITNESS_SCALE_FACTOR := 4
  const MIN_TRANSACTION_WEIGHT := WITNESS_SCALE_FACTOR * 60
  const MIN_SERIALIZABLE_TRANSACTION_WEIGHT := WITNESS_SCALE_FACTOR * 10
}
