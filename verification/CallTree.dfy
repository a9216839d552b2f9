/** Gas through the run loop and nested frames (core/vm/evm.go, core/vm/gas.go,
    core/vm/instructions.go).  What code does is an arbitrary function from frame and step to
    instruction; that execution terminates at all is shown by the gas. */
module CallTree {
  import opened Wrappers
  import opened Rlp
  import Words
  import opened OpcodeTable
  import opened StoragePrices

  const MAX_UINT64: nat := 0xFFFF_FFFF_FFFF_FFFF

  type Gas = g: int | 0 <= g <= MAX_UINT64

  // Prices (gas.go, constants.go and GasTableCalifornicum of gas_table.go).
  const EXP_GAS: nat := 10
  const EXP_BYTE_GAS: nat := 50
  const LOG_GAS: nat := 375
  const LOG_TOPIC_GAS: nat := 375
  const LOG_DATA_GAS: nat := 8
  const COPY_GAS: nat := 3
  const KECCAK_WORD_GAS: nat := 6
  const EXTCODE_COPY_GAS: nat := 700
  const CALLS_GAS: nat := 700
  const NEW_ACCOUNT_GAS: nat := 25000
  const VALUE_TRANSFER_GAS: nat := 9000
  const CALL_STIPEND: nat := 2300
  const CREATE_GAS: nat := 32000
  const CREATE_DATA_GAS: nat := 200
  const MAX_CODE_SIZE: nat := 24576
  const TX_GAS: nat := 21000
  const TX_GAS_CREATION: nat := 53000
  const TX_DATA_ZERO_GAS: nat := 4
  const TX_DATA_NONZERO_GAS: nat := 68

  // ---------------------------------------------------------------------------------
  // Costs
  // ---------------------------------------------------------------------------------

  function SafeAdd(a: Gas, b: Gas): (r: Option<Gas>)
  {
    if a + b > MAX_UINT64 then None else Some(a + b)
  }

  function SafeMul(a: Gas, b: Gas): (r: Option<Gas>)
  {
    if a * b > MAX_UINT64 then None else Some(a * b)
  }

  function Then(a: Option<Gas>, b: Option<Gas>): (r: Option<Gas>)
  {
    if a.None? || b.None? then None else SafeAdd(a.value, b.value)
  }

  /** How an instruction other than a call, a create or a halt is paid.  `fee` is the fee for
      growing memory, `words` and `size` come from the stack. */
  datatype Price =
    | Fixed(gas: Gas)
    | Copier(fee: Gas, words: Gas)
    | ExtCodeCopy(fee: Gas, words: Gas)
    | Keccak(fee: Gas, words: Gas)
    | LogData(topics: nat, fee: Gas, size: Gas)
    | MemoryWord(fee: Gas)
    | Exp(exponentBytes: nat)

  /** The prices an opcode with this entry may have, whatever is on the stack. */
  predicate PricedBy(e: Entry, p: Price)
  {
    match e
    case Always(g) => p.Fixed? && p.gas == g
    case Store => p.Fixed? && p.gas in {NOOP_GAS, DIRTY_GAS, CLEAN_GAS, INIT_GAS}
    case MemoryCopy => p.Copier?
    case ExtCode => p.ExtCodeCopy?
    case Hash => p.Keccak?
    case Log(n) => p.LogData? && p.topics == n
    case Word => p.MemoryWord?
    case Exponent => p.Exp? && p.exponentBytes <= 32
    case _ => false
  }

  /** A price of the instruction set: that of some opcode other than STOP. */
  ghost predicate InTable(p: Price)
  {
    exists op: Byte :: op != STOP && PricedBy(Table(op), p)
  }

  const FIXED_PRICES: set<nat> := {1, 2, 3, 5, 8, 10, 20, 100, 200, 700, 800, 5000, 20000}

  predicate Listed(p: Price)
  {
    match p
    case Fixed(g) => g in FIXED_PRICES
    case LogData(n, _, _) => n <= 4
    case Exp(n) => n <= 32
    case _ => true
  }

  /** Exactly the listed prices are prices of the instruction set. */
  lemma PricesAre(p: Price)
    ensures InTable(p) <==> Listed(p)
  {
    hide PricedBy, Table, Listed;
    if InTable(p) {
      var op: Byte :| op != STOP && PricedBy(Table(op), p);
      PriceIsListed(op, p);
    }
    if Listed(p) { var op := PricedOp(p); }
  }

  lemma PriceIsListed(op: Byte, p: Price)
    requires op != STOP && PricedBy(Table(op), p)
    ensures Listed(p)
  {
    FixedPrices(op);
  }

  /** An opcode with a listed price. */
  lemma PricedOp(p: Price) returns (op: Byte)
    requires Listed(p)
    ensures op != STOP && PricedBy(Table(op), p)
  {
    match p
    case Fixed(g) =>
      op := if g == 1 then 0x5b else if g == 2 then 0x30 else if g == 3 then 0x01 else if g == 5 then 0x02
            else if g == 8 then 0x08 else if g == 10 then 0x57 else if g == 20 then 0x40 else if g == 100 then 0xb3
            else if g == 700 then 0x31 else if g == 800 then 0x54 else 0x55;
    case Copier(_, _) => op := 0x37;
    case ExtCodeCopy(_, _) => op := 0x3c;
    case Keccak(_, _) => op := 0x20;
    case LogData(n, _, _) => op := 0xa0 + n;
    case MemoryWord(_) => op := 0x51;
    case Exp(_) => op := 0x0a;
  }

  /** The gas functions; None is the overflow error. */
  function Cost(p: Price): (r: Option<Gas>)
    requires InTable(p)
  {
    match p
    case Fixed(g) => Some(g)
    case Copier(fee, words) => Then(SafeAdd(fee, FASTEST_STEP), SafeMul(words, COPY_GAS))
    case ExtCodeCopy(fee, words) => Then(SafeAdd(fee, EXTCODE_COPY_GAS), SafeMul(words, COPY_GAS))
    case Keccak(fee, words) => Then(SafeAdd(fee, KECCAK_WORD_GAS), SafeMul(words, KECCAK_WORD_GAS))
    case LogData(n, fee, size) => Then(Then(SafeAdd(fee, LOG_GAS), Some(n * LOG_TOPIC_GAS)), SafeMul(size, LOG_DATA_GAS))
    case MemoryWord(fee) => SafeAdd(fee, FASTEST_STEP)
    case Exp(n) => SafeAdd(n * EXP_BYTE_GAS, EXP_GAS)
  }

  /** No such instruction is free. */
  lemma CostPositive(p: Price)
    requires InTable(p)
    ensures Cost(p).Some? ==> Cost(p).value >= 1
  {
    hide InTable;
    PricesAre(p);
  }

  /** All but one 64th. */
  function AllBut64th(g: nat): (r: nat)
  {
    g - g / 64
  }

  /** `callGas`; the subtraction wraps when the base price exceeds the gas.  `requested` is a
      256-bit word. */
  function CallGas(available: Gas, base: Gas, requested: nat): (r: Gas)
  {
    var rest := (available - base) % (MAX_UINT64 + 1);
    var gas := rest - rest / 64;
    if requested > MAX_UINT64 || gas < requested then gas else requested
  }

  /** The four calls: value may be sent with CALL and CALLCODE, and CALL may create. */
  datatype CallKind = CALL(value: bool, empty: bool) | CALLCODE(value: bool) | DELEGATECALL | STATICCALL

  predicate SendsValue(k: CallKind)
  {
    (k.CALL? || k.CALLCODE?) && k.value
  }

  /** What a call costs before the gas it passes on. */
  function CallBase(k: CallKind, fee: Gas): (r: Option<Gas>)
  {
    SafeAdd(CALLS_GAS + (if k.CALL? && k.value && k.empty then NEW_ACCOUNT_GAS else 0) +
            (if SendsValue(k) then VALUE_TRANSFER_GAS else 0), fee)
  }

  /** `gasCall` and its siblings: the whole cost, and the gas to pass on (`call_gas_tmp`). */
  function CallCost(k: CallKind, fee: Gas, gas: Gas, requested: nat): (r: Option<(Gas, Gas)>)
  {
    var base := CallBase(k, fee);
    if base.None? then None
    else
      var pass := CallGas(gas, base.value, requested);
      var cost := SafeAdd(base.value, pass);
      if cost.None? then None else Some((cost.value, pass))
  }

  /** EIP-150: when a call can be paid, the base price was there, and the gas passed on is what
      was asked for or all but one 64th of the rest, whichever is less.  Where the subtraction
      wraps the call cannot be paid. */
  lemma CallGasRule(k: CallKind, fee: Gas, gas: Gas, requested: nat)
    requires CallCost(k, fee, gas, requested).Some? && CallCost(k, fee, gas, requested).value.0 <= gas
    ensures var base, pass := CallBase(k, fee).value, CallCost(k, fee, gas, requested).value.1;
            base <= gas && pass == (if requested < AllBut64th(gas - base) then requested else AllBut64th(gas - base)) &&
            CALLS_GAS <= base && (SendsValue(k) ==> CALLS_GAS + VALUE_TRANSFER_GAS <= base) &&
            CallCost(k, fee, gas, requested).value.0 == base + pass
  {
    WrappedCallTooDear(gas, CallBase(k, fee).value, requested);
  }

  /** Where the subtraction wraps, the sum overflows or exceeds the gas. */
  lemma WrappedCallTooDear(gas: Gas, base: Gas, requested: nat)
    ensures base > gas ==> base + CallGas(gas, base, requested) > gas
  {
  }

  // ---------------------------------------------------------------------------------
  // Frames
  // ---------------------------------------------------------------------------------

  /** What is called: the call is refused for depth or funds; there is nothing at the address;
      a precompile; or code. */
  datatype Target = Refused | Nothing | Precompile(required: Gas) | Code

  /** What a create meets. */
  datatype Site = NoCreate | Collision | Fresh(codeSize: nat)

  /** One turn of the run loop.  `Bad` is any error before the instruction is paid, `ok` is
      whether it succeeds once paid. */
  datatype Ins =
    | Stop
    | Return(fee: Gas)
    | Revert(fee: Gas)
    | SelfDestruct(gas: Gas)
    | Bad
    | Simple(price: Price, ok: bool)
    | Call(kind: CallKind, fee: Gas, requested: nat, target: Target)
    | Create(fee: Gas, hashWords: Gas, site: Site)

  /** What the code of each frame does; a frame is named by the steps that led to it. */
  type Program = (seq<nat>, nat) -> Ins

  ghost predicate Proper(x: Ins)
  {
    x.Simple? ==> InTable(x.price)
  }

  ghost predicate AllProper(p: Program)
  {
    forall path, step :: Proper(p(path, step))
  }

  datatype End = Done | Reverted | Failed

  /** `CREATE` and `CREATE2`, the latter hashing its code. */
  function CreateCost(fee: Gas, hashWords: Gas): (r: Option<Gas>)
    ensures r.Some? ==> r.value >= CREATE_GAS
  {
    Then(SafeAdd(fee, CREATE_GAS), SafeMul(hashWords, KECCAK_WORD_GAS))
  }

  /** `run` from a step on: the gas left and how the frame ends.  That this is a function at
      all, for every program, is the termination of the run loop and of the call tree. */
  ghost function Run(p: Program, path: seq<nat>, step: nat, gas: Gas): (r: (Gas, End))
    requires AllProper(p)
    ensures r.0 <= gas
    decreases gas, 2
  {
    var x := p(path, step);
    assert Proper(x);
    match x
    case Stop => (gas, Done)
    case Return(fee) => if fee > gas then (gas, Failed) else (gas - fee, Done)
    case Revert(fee) => if fee > gas then (gas, Failed) else (gas - fee, Reverted)
    case SelfDestruct(cost) => if cost > gas then (gas, Failed) else (gas - cost, Done)
    case _ =>
      var after := AfterIns(p, path, step, gas);
      if after.None? then (gas, Failed) else Run(p, path, step + 1, after.value)
  }

  /** The gas after one instruction that does not halt, None if it fails: strictly less, even
      after what an inner frame gives back and with the stipend. */
  ghost function AfterIns(p: Program, path: seq<nat>, step: nat, gas: Gas): (r: Option<Gas>)
    requires AllProper(p)
    ensures r.Some? ==> r.value < gas
    decreases gas, 1
  {
    var x := p(path, step);
    assert Proper(x);
    match x
    case Simple(price, ok) =>
      CostPositive(price);
      if Cost(price).None? || Cost(price).value > gas || !ok then None else Some(gas - Cost(price).value)
    case Call(kind, fee, requested, target) =>
      var c := CallCost(kind, fee, gas, requested);
      if c.None? || c.value.0 > gas then None
      else
        CallGasRule(kind, fee, gas, requested);
        var inner := c.value.1 + if SendsValue(kind) then CALL_STIPEND else 0;
        Some(gas - c.value.0 + CallFrame(p, path + [step], inner, target))
    case Create(fee, hashWords, site) =>
      var c := CreateCost(fee, hashWords);
      if c.None? || c.value > gas then None
      else
        var rest := gas - c.value;
        Some(rest - AllBut64th(rest) + CreateFrame(p, path + [step], AllBut64th(rest), site))
    case _ => None
  }

  /** `call`: the gas a callee gives back. */
  ghost function CallFrame(p: Program, path: seq<nat>, gas: Gas, target: Target): (left: Gas)
    requires AllProper(p)
    ensures left <= gas
    decreases gas, 3
  {
    match target
    case Refused => gas
    case Nothing => gas
    case Precompile(required) => if required <= gas then gas - required else gas
    case Code =>
      var (left, end) := Run(p, path, 0, gas);
      if end.Failed? then 0 else left
  }

  /** `create`: the gas the constructor gives back. */
  ghost function CreateFrame(p: Program, path: seq<nat>, gas: Gas, site: Site): (left: Gas)
    requires AllProper(p)
    ensures left <= gas
    decreases gas, 3
  {
    match site
    case NoCreate => gas
    case Collision => 0
    case Fresh(size) =>
      var (left, end) := Run(p, path, 0, gas);
      match end
      case Failed => 0
      case Reverted => left
      case Done => if size > MAX_CODE_SIZE || left < size * CREATE_DATA_GAS then 0 else left - size * CREATE_DATA_GAS
  }

  // ---------------------------------------------------------------------------------
  // Where gas goes
  // ---------------------------------------------------------------------------------

  /** What was paid for the instructions carried out, by a frame and all frames below it; what was
      still there in frames when they failed; and the stipends that came on top. */
  datatype Bill = Bill(paid: nat, burnt: nat, stipends: nat)

  const NO_BILL := Bill(0, 0, 0)

  function Both(a: Bill, b: Bill): (r: Bill)
  {
    Bill(a.paid + b.paid, a.burnt + b.burnt, a.stipends + b.stipends)
  }

  /** What is left of gas. */
  function Left(gas: nat, b: Bill): (left: int)
  {
    gas + b.stipends - b.paid - b.burnt
  }

  /** The instructions of a frame from a step on.  Gas is conserved: what is not paid or burnt is
      left. */
  ghost function RunBill(p: Program, path: seq<nat>, step: nat, gas: Gas): (b: Bill)
    requires AllProper(p)
    ensures Run(p, path, step, gas).0 == Left(gas, b)
    decreases gas, 2
  {
    var x := p(path, step);
    assert Proper(x);
    match x
    case Stop => NO_BILL
    case Return(fee) => if fee > gas then NO_BILL else Bill(fee, 0, 0)
    case Revert(fee) => if fee > gas then NO_BILL else Bill(fee, 0, 0)
    case SelfDestruct(cost) => if cost > gas then NO_BILL else Bill(cost, 0, 0)
    case Bad => NO_BILL
    case _ =>
      var after := AfterIns(p, path, step, gas);
      if after.None? then NO_BILL else Both(InsBill(p, path, step, gas), RunBill(p, path, step + 1, after.value))
  }

  /** One instruction that is carried out: its own price, and what the inner frame used. */
  ghost function InsBill(p: Program, path: seq<nat>, step: nat, gas: Gas): (b: Bill)
    requires AllProper(p) && AfterIns(p, path, step, gas).Some?
    ensures AfterIns(p, path, step, gas).value == Left(gas, b)
    decreases gas, 1
  {
    var x := p(path, step);
    assert Proper(x);
    match x
    case Simple(price, _) => Bill(Cost(price).value, 0, 0)
    case Call(kind, fee, requested, target) =>
      CallGasRule(kind, fee, gas, requested);
      var pass := CallCost(kind, fee, gas, requested).value.1;
      var stipend := if SendsValue(kind) then CALL_STIPEND else 0;
      Both(Bill(CallBase(kind, fee).value, 0, stipend), CallBill(p, path + [step], pass + stipend, target))
    case Create(fee, hashWords, site) =>
      var cost := CreateCost(fee, hashWords).value;
      Both(Bill(cost, 0, 0), CreateBill(p, path + [step], AllBut64th(gas - cost), site))
  }

  /** A called frame burns what it has left only if it fails; a precompile that is paid takes its
      price, and one that is not takes nothing. */
  ghost function CallBill(p: Program, path: seq<nat>, gas: Gas, target: Target): (b: Bill)
    requires AllProper(p)
    ensures CallFrame(p, path, gas, target) == Left(gas, b)
    decreases gas, 3
  {
    match target
    case Precompile(required) => if required <= gas then Bill(required, 0, 0) else NO_BILL
    case Code =>
      var (left, end) := Run(p, path, 0, gas);
      Both(RunBill(p, path, 0, gas), Bill(0, if end.Failed? then left else 0, 0))
    case _ => NO_BILL
  }

  /** A constructor also pays for the code it leaves, and burns all if it cannot. */
  ghost function CreateBill(p: Program, path: seq<nat>, gas: Gas, site: Site): (b: Bill)
    requires AllProper(p)
    ensures CreateFrame(p, path, gas, site) == Left(gas, b)
    decreases gas, 3
  {
    match site
    case NoCreate => NO_BILL
    case Collision => Bill(0, gas, 0)
    case Fresh(size) =>
      var (left, end) := Run(p, path, 0, gas);
      var deposit := size * CREATE_DATA_GAS;
      Both(RunBill(p, path, 0, gas),
           match end
           case Failed => Bill(0, left, 0)
           case Reverted => NO_BILL
           case Done => if size > MAX_CODE_SIZE || left < deposit then Bill(0, left, 0) else Bill(deposit, 0, 0))
  }

  /** A callee that ends or reverts gives back all that its own instructions left. */
  lemma CalleeGivesBack(p: Program, path: seq<nat>, gas: Gas)
    requires AllProper(p) && !Run(p, path, 0, gas).1.Failed?
    ensures CallFrame(p, path, gas, Code) == Left(gas, RunBill(p, path, 0, gas))
  {
  }

  // ---------------------------------------------------------------------------------
  // Prices by size
  // ---------------------------------------------------------------------------------

  /** The second price is higher by d. */
  ghost predicate Dearer(a: Price, b: Price, d: nat)
    requires InTable(a) && InTable(b)
  {
    Cost(a).Some? && Cost(b).Some? ==> Cost(b).value == Cost(a).value + d
  }

  /** What one more word, byte or topic costs. */
  lemma PriceOfMore(fee: Gas, n: Gas, topics: nat)
    requires n < MAX_UINT64 && topics < 4
    ensures InTable(Copier(fee, n)) && InTable(Copier(fee, n + 1)) && Dearer(Copier(fee, n), Copier(fee, n + 1), 3)
    ensures InTable(ExtCodeCopy(fee, n)) && InTable(ExtCodeCopy(fee, n + 1)) && Dearer(ExtCodeCopy(fee, n), ExtCodeCopy(fee, n + 1), 3)
    ensures InTable(Keccak(fee, n)) && InTable(Keccak(fee, n + 1)) && Dearer(Keccak(fee, n), Keccak(fee, n + 1), 6)
    ensures InTable(LogData(topics, fee, n)) && InTable(LogData(topics, fee, n + 1)) && Dearer(LogData(topics, fee, n), LogData(topics, fee, n + 1), 8)
    ensures InTable(LogData(topics + 1, fee, n)) && Dearer(LogData(topics, fee, n), LogData(topics + 1, fee, n), 375)
    ensures n < 32 ==> InTable(Exp(n)) && InTable(Exp(n + 1)) && Dearer(Exp(n), Exp(n + 1), 50)
  {
    hide InTable;
    PricesAre(Copier(fee, n)); PricesAre(Copier(fee, n + 1));
    PricesAre(ExtCodeCopy(fee, n)); PricesAre(ExtCodeCopy(fee, n + 1));
    PricesAre(Keccak(fee, n)); PricesAre(Keccak(fee, n + 1));
    PricesAre(LogData(topics, fee, n)); PricesAre(LogData(topics, fee, n + 1)); PricesAre(LogData(topics + 1, fee, n));
    if n < 32 { PricesAre(Exp(n)); PricesAre(Exp(n + 1)); }
  }

  /** What is paid beside the fee for memory when there is nothing to copy, hash or log. */
  lemma PriceOfNone(fee: Gas)
    ensures InTable(Copier(fee, 0)) && Cost(Copier(fee, 0)) == SafeAdd(fee, 3)
    ensures InTable(ExtCodeCopy(fee, 0)) && Cost(ExtCodeCopy(fee, 0)) == SafeAdd(fee, 700)
    ensures InTable(Keccak(fee, 0)) && Cost(Keccak(fee, 0)) == SafeAdd(fee, 6)
    ensures InTable(LogData(0, fee, 0)) && Cost(LogData(0, fee, 0)) == SafeAdd(fee, 375)
    ensures InTable(MemoryWord(fee)) && Cost(MemoryWord(fee)) == SafeAdd(fee, 3)
    ensures InTable(Exp(0)) && Cost(Exp(0)) == Some(10)
    ensures CreateCost(fee, 0) == SafeAdd(fee, 32000)
    ensures forall n: Gas :: n < MAX_UINT64 && CreateCost(fee, n + 1).Some? ==> CreateCost(fee, n + 1).value == CreateCost(fee, n).value + 6
  {
    hide InTable;
    PricesAre(Copier(fee, 0));
    PricesAre(ExtCodeCopy(fee, 0));
    PricesAre(Keccak(fee, 0));
    PricesAre(LogData(0, fee, 0));
    PricesAre(MemoryWord(fee));
    PricesAre(Exp(0));
  }

  /** What sending value, and sending it to an empty account, adds to a call. */
  lemma PriceOfValue(fee: Gas, empty: bool)
    requires fee + 34700 <= MAX_UINT64
    ensures CallBase(STATICCALL, fee) == CallBase(DELEGATECALL, fee) == CallBase(CALLCODE(false), fee) == CallBase(CALL(false, empty), fee) == Some(fee + 700)
    ensures CallBase(CALLCODE(true), fee) == CallBase(CALL(true, false), fee) == Some(fee + 700 + 9000)
    ensures CallBase(CALL(true, true), fee) == Some(fee + 700 + 9000 + 25000)
  {
  }

  /** What one more byte of code that is left behind costs a constructor that ends. */
  lemma PriceOfCode(p: Program, path: seq<nat>, gas: Gas, size: nat)
    requires AllProper(p) && Run(p, path, 0, gas).1.Done? && size < MAX_CODE_SIZE && 200 * (size + 1) <= Run(p, path, 0, gas).0
    ensures CreateFrame(p, path, gas, Fresh(0)) == Run(p, path, 0, gas).0
    ensures CreateFrame(p, path, gas, Fresh(size + 1)) == CreateFrame(p, path, gas, Fresh(size)) - 200
  {
  }

  // ---------------------------------------------------------------------------------
  // The run loop
  // ---------------------------------------------------------------------------------

  /** The gas of a frame. */
  class Contract {
    var gas: Gas

    constructor (g: Gas)
      ensures gas == g
    {
      gas := g;
    }

    /** `UseGas`. */
    method UseGas(amount: Gas) returns (ok: bool)
      modifies this
      ensures ok <==> amount <= old(gas)
      ensures gas == if ok then old(gas) - amount else old(gas)
    {
      if gas < amount { return false; }
      gas := gas - amount;
      ok := true;
    }
  }

  /** `run`.  What an erring frame has left does not matter: its caller takes all of it. */
  method RunLoop(p: Program, path: seq<nat>, contract: Contract) returns (end: End)
    requires AllProper(p)
    modifies contract
    ensures end == Run(p, path, 0, old(contract.gas)).1
    ensures contract.gas <= old(contract.gas) && (end != Failed ==> contract.gas == Run(p, path, 0, old(contract.gas)).0)
    decreases contract.gas, 2
  {
    var step: nat := 0;
    while true
      invariant contract.gas <= old(contract.gas)
      invariant Run(p, path, 0, old(contract.gas)) == Run(p, path, step, contract.gas)
      decreases contract.gas
    {
      var x := p(path, step);
      if x.Stop? {
        return Done;
      } else if x.Bad? {
        return Failed;
      } else if x.Return? || x.Revert? || x.SelfDestruct? {
        var ok := contract.UseGas(if x.Return? then x.fee else if x.Revert? then x.fee else x.gas);
        return if !ok then Failed else if x.Revert? then Reverted else Done;
      }
      var ok := Execute(p, path, step, contract);
      if !ok { return Failed; }
      step := step + 1;
    }
  }

  /** The gas function of an instruction, the payment, and `execute`. */
  method Execute(p: Program, path: seq<nat>, step: nat, contract: Contract) returns (ok: bool)
    requires AllProper(p) && (p(path, step).Simple? || p(path, step).Call? || p(path, step).Create?)
    modifies contract
    ensures contract.gas <= old(contract.gas)
    ensures ok <==> AfterIns(p, path, step, old(contract.gas)).Some?
    ensures ok ==> contract.gas == AfterIns(p, path, step, old(contract.gas)).value
    decreases contract.gas, 1
  {
    hide InTable, PricedBy, Table, Cost, CallCost, CreateCost, Run, CallFrame, CreateFrame;
    var x := p(path, step);
    assert Proper(x);
    if x.Simple? {
      CostPositive(x.price);
      var cost := Cost(x.price);
      if cost.None? { return false; }
      ok := contract.UseGas(cost.value);
      ok := ok && x.ok;
    } else if x.Call? {
      var c := CallCost(x.kind, x.fee, contract.gas, x.requested);
      if c.None? { return false; }
      if c.value.0 <= contract.gas { CallGasRule(x.kind, x.fee, contract.gas, x.requested); }
      ok := contract.UseGas(c.value.0);
      if !ok { return; }
      var pass: Gas := c.value.1 + (if SendsValue(x.kind) then CALL_STIPEND else 0);
      var returned := DoCall(p, path + [step], pass, x.target);
      contract.gas := contract.gas + returned;
    } else {
      var c := CreateCost(x.fee, x.hashWords);
      if c.None? { return false; }
      ok := contract.UseGas(c.value);
      if !ok { return; }
      var pass := AllBut64th(contract.gas);
      var paid := contract.UseGas(pass);
      var returned := DoCreate(p, path + [step], pass, x.site);
      contract.gas := contract.gas + returned;
    }
  }

  /** The gas part of `call`. */
  method DoCall(p: Program, path: seq<nat>, gas: Gas, target: Target) returns (left: Gas)
    requires AllProper(p)
    ensures left == CallFrame(p, path, gas, target)
    decreases gas, 3
  {
    left := gas;
    if target.Precompile? {
      if target.required <= left { left := left - target.required; }
    } else if target.Code? {
      var contract := new Contract(gas);
      var end := RunLoop(p, path, contract);
      left := contract.gas;
      if end == Failed { left := 0; }
    }
  }

  /** The gas part of `create`. */
  method DoCreate(p: Program, path: seq<nat>, gas: Gas, site: Site) returns (left: Gas)
    requires AllProper(p)
    ensures left == CreateFrame(p, path, gas, site)
    decreases gas, 3
  {
    if site.NoCreate? { return gas; }
    if site.Collision? { return 0; }
    var contract := new Contract(gas);
    var end := RunLoop(p, path, contract);
    var failed := end != Done || site.codeSize > MAX_CODE_SIZE;
    if !failed {
      var ok := contract.UseGas(site.codeSize * CREATE_DATA_GAS);
      failed := !ok;
    }
    if failed && end != Reverted { contract.gas := 0; }
    left := contract.gas;
  }

  // ---------------------------------------------------------------------------------
  // Transactions
  // ---------------------------------------------------------------------------------

  function NonZero(data: Bytes): (n: nat)
    ensures n <= |data|
  {
    if data == [] then 0 else NonZero(data[..|data| - 1]) + (if data[|data| - 1] != 0 then 1 else 0)
  }

  /** The intrinsic gas without overflow. */
  function Intrinsic(data: Bytes, creation: bool): (g: nat)
  {
    (if creation then TX_GAS_CREATION else TX_GAS) + NonZero(data) * TX_DATA_NONZERO_GAS + (|data| - NonZero(data)) * TX_DATA_ZERO_GAS
  }

  /** What each byte of data, and creating a contract, adds. */
  lemma PriceOfData(data: Bytes, b: Byte)
    ensures Intrinsic([], false) == 21000 && Intrinsic(data, true) == Intrinsic(data, false) + 32000
    ensures Intrinsic(data + [b], false) == Intrinsic(data, false) + if b == 0 then 4 else 68
  {
    assert (data + [b])[..|data|] == data;
  }

  /** `IntrinsicGas`; it fails exactly when the sum does not fit 64 bits. */
  method IntrinsicGas(data: Bytes, creation: bool) returns (r: Option<Gas>)
    ensures r == if Intrinsic(data, creation) <= MAX_UINT64 then Some(Intrinsic(data, creation)) else None
  {
    var gas: Gas := if creation then TX_GAS_CREATION else TX_GAS;
    if |data| > 0 {
      var nz: nat := 0;
      for i := 0 to |data|
        invariant nz == NonZero(data[..i])
      {
        assert data[..i + 1][..i] == data[..i];
        if data[i] != 0 { nz := nz + 1; }
      }
      assert data[..|data|] == data;
      if (MAX_UINT64 - gas) / TX_DATA_NONZERO_GAS < nz { return None; }
      gas := gas + nz * TX_DATA_NONZERO_GAS;
      var z := |data| - nz;
      if (MAX_UINT64 - gas) / TX_DATA_ZERO_GAS < z { return None; }
      gas := gas + z * TX_DATA_ZERO_GAS;
    }
    return Some(gas);
  }

  /** A transaction as far as gas goes: `balance` is the sender's, `exempt` the zero address,
      `nonceLow` a nonce that was used; the top frame calls or creates. */
  datatype Transaction = Transaction(cap: Gas, price: nat, data: Bytes, creation: bool, balance: nat, exempt: bool, nonceLow: bool,
                                     target: Target, site: Site, poor: bool)

  /** The outcome: gas used, what the sender was charged in all, whether code ran, and the gas
      left before the refund. */
  datatype Receipt = Receipt(used: Gas, charged: int, ran: bool, leftBefore: Gas)

  /** What gas costs. */
  function Fee(gas: nat, price: nat): (f: nat)
  {
    gas * price
  }

  lemma FeeSplit(cap: nat, left: nat, price: nat)
    requires left <= cap
    ensures Fee(cap, price) - Fee(left, price) == Fee(cap - left, price)
  {
  }

  /** The gas part of `Main`.  `refund` is the refund counter at the end; `poor` is
      ErrInsufficientBalanceForTransfer. */
  method MainGas(p: Program, trx: Transaction, refund: Gas) returns (r: Receipt)
    requires AllProper(p)
    ensures r.used <= trx.cap
    ensures r.charged == Fee(r.used, trx.price)
    ensures var poor := !trx.exempt && trx.balance < Fee(trx.cap, trx.price);
            (poor ==> r.charged <= trx.balance < r.charged + trx.price) &&
            (!poor && !r.ran ==> r.used == trx.cap) &&
            (r.ran <==> !poor && !trx.nonceLow && Intrinsic(trx.data, trx.creation) <= trx.cap && !trx.poor)
    ensures r.ran ==> var given := trx.cap - Intrinsic(trx.data, trx.creation);
                      r.leftBefore == if trx.creation then CreateFrame(p, [], given, trx.site) else CallFrame(p, [], given, trx.target)
    ensures r.ran ==> Intrinsic(trx.data, trx.creation) <= trx.cap - r.leftBefore
    ensures r.ran ==> 2 * r.used >= trx.cap - r.leftBefore >= r.used
    ensures r.ran ==> trx.cap - r.leftBefore - r.used == if refund < (trx.cap - r.leftBefore) / 2 then refund else (trx.cap - r.leftBefore) / 2
  {
    var fee := Fee(trx.cap, trx.price);
    if !trx.exempt && trx.balance < fee {
      QuotientBelow(trx.balance, trx.price, trx.cap);
      WholeUnits(trx.balance, trx.price);
      var available := trx.balance / trx.price;
      return Receipt(available, Fee(available, trx.price), false, 0);
    }
    hide Fee, CallFrame, CreateFrame;
    var charged := fee;
    if trx.nonceLow { return Receipt(trx.cap, charged, false, 0); }
    var intrinsic := IntrinsicGas(trx.data, trx.creation);
    if intrinsic.None? || trx.cap < intrinsic.value { return Receipt(trx.cap, charged, false, 0); }
    var left: Gas := trx.cap - intrinsic.value;
    if trx.creation {
      left := DoCreate(p, [], left, trx.site);
    } else {
      left := DoCall(p, [], left, trx.target);
    }
    if trx.poor { return Receipt(trx.cap, charged, false, left); }
    var before := left;
    left := left + (if refund < (trx.cap - left) / 2 then refund else (trx.cap - left) / 2);
    FeeSplit(trx.cap, left, trx.price);
    charged := charged - Fee(left, trx.price);
    return Receipt(trx.cap - left, charged, true, before);
  }

  lemma FreeGas(cap: nat)
    ensures Fee(cap, 0) == 0
  {
  }

  /** What is charged in whole units of gas leaves less than one. */
  lemma WholeUnits(balance: nat, price: nat)
    requires price > 0
    ensures Fee(balance / price, price) <= balance < Fee(balance / price, price) + price
  {
  }

  lemma QuotientBelow(balance: nat, price: nat, cap: nat)
    requires balance < Fee(cap, price)
    ensures price > 0 && balance / price < cap
  {
    FreeGas(cap);
    assert (balance / price) * price <= balance;
    Words.LessByFactor(balance / price, cap, price);
  }
}
