/** The instruction set: which gas function each opcode byte has (core/vm/jump_table.go,
    core/vm/opcodes.go, core/vm/eips.go and the fixed prices of core/vm/gas.go). */
module OpcodeTable {
  import opened Rlp

  const STOP: Byte := 0x00

  const JUMPDEST_GAS: nat := 1
  const QUICK_STEP: nat := 2
  const FASTEST_STEP: nat := 3
  const FAST_STEP: nat := 5
  const MID_STEP: nat := 8
  const SLOW_STEP: nat := 10
  const EXT_STEP: nat := 20
  const WARM_READ_GAS: nat := 100
  const EXT_ACCOUNT_GAS: nat := 700
  const SLOAD_GAS: nat := 800

  /** The gas function of an opcode; `Always` is one that does not look at the stack or memory. */
  datatype Entry =
    | NoEntry
    | Always(gas: nat)
    | MemoryCopy
    | ExtCode
    | Hash
    | Log(topics: nat)
    | Word
    | Exponent
    | Store
    | CallEntry
    | CreateEntry
    | ReturnEntry
    | RevertEntry
    | SuicideEntry

  function Table(op: Byte): (e: Entry)
  {
    if op == STOP then Always(0)
    else if op < 0x10 then Arithmetic(op)
    else if op < 0x20 then if op <= 0x1d then Always(FASTEST_STEP) else NoEntry
    else if op < 0x30 then if op == 0x20 then Hash else NoEntry
    else if op < 0x40 then Environment(op)
    else if op < 0x50 then
      if op == 0x40 then Always(EXT_STEP) else if op < 0x47 then Always(QUICK_STEP) else if op == 0x47 then Always(FAST_STEP) else NoEntry
    else if op < 0x60 then StorageAndFlow(op)
    else if op < 0xa0 then Always(FASTEST_STEP)
    else if op <= 0xa4 then Log(op - 0xa0)
    else if op == 0xb3 || op == 0xb4 then Always(WARM_READ_GAS)
    else System(op)
  }

  function Arithmetic(op: Byte): (e: Entry)
  {
    if op == 0x01 || op == 0x03 then Always(FASTEST_STEP)
    else if op == 0x08 || op == 0x09 then Always(MID_STEP)
    else if op == 0x0a then Exponent
    else if op <= 0x0b then Always(FAST_STEP)
    else NoEntry
  }

  function Environment(op: Byte): (e: Entry)
  {
    if op == 0x31 || op == 0x3b || op == 0x3f then Always(EXT_ACCOUNT_GAS)
    else if op == 0x35 then Always(FASTEST_STEP)
    else if op == 0x37 || op == 0x39 || op == 0x3e then MemoryCopy
    else if op == 0x3c then ExtCode
    else Always(QUICK_STEP)
  }

  function StorageAndFlow(op: Byte): (e: Entry)
  {
    if op == 0x51 || op == 0x52 || op == 0x53 then Word
    else if op == 0x54 then Always(SLOAD_GAS)
    else if op == 0x55 then Store
    else if op == 0x56 then Always(MID_STEP)
    else if op == 0x57 then Always(SLOW_STEP)
    else if op == 0x5b then Always(JUMPDEST_GAS)
    else if op == 0x5c || op == 0x5d then NoEntry
    else if op == 0x5e then MemoryCopy
    else Always(QUICK_STEP)
  }

  function System(op: Byte): (e: Entry)
  {
    if op == 0xf0 || op == 0xf5 then CreateEntry
    else if op == 0xf1 || op == 0xf2 || op == 0xf4 || op == 0xfa then CallEntry
    else if op == 0xf3 then ReturnEntry
    else if op == 0xfd then RevertEntry
    else if op == 0xff then SuicideEntry
    else NoEntry
  }

  /** Only STOP is always free, and every other fixed price is one of these. */
  lemma FixedPrices(op: Byte)
    ensures Table(op) == Always(0) <==> op == STOP
    ensures Table(op).Always? && op != STOP ==> Table(op).gas in {1, 2, 3, 5, 8, 10, 20, 100, 700, 800}
  {
  }
}
