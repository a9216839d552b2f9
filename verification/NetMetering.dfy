/** Net-metered storage writes (`gasSStore` of core/vm/gas.go, `opSstore`): why the refund counter
    cannot go below zero, and what the writes to a slot cost over a transaction. */
module NetMetering {
  import opened Wrappers
  import opened Rlp
  import opened Journal
  import opened JournalRun
  import opened StoragePrices

  /** The state after the two reads of `gasSStore`. */
  function AfterReads(input: Input, s: State, a: Address, key: nat): (r: State)
  {
    var x := At(input, s.world, a);
    SetAcct(s, a, CacheCommitted(input, a, CacheSlot(input, a, x, key), key))
  }

  /** `gasSStore`: the cost, and the state with the refund adjusted. */
  function GasSStore(input: Input, s: State, a: Address, key: nat, value: int): (r: Option<(State, nat)>)
  {
    var x := At(input, s.world, a);
    var current := Slot(input, a, x, key);
    if current == value then Some((SetAcct(s, a, CacheSlot(input, a, x, key)), NOOP_GAS))
    else Metered(AfterReads(input, s, a, key), Committed(input, a, x, key), current, value)
  }

  /** The price of a change, by original, current and new value. */
  function Metered(s: State, original: int, current: int, value: int): (r: Option<(State, nat)>)
  {
    if original == current then
      if original == 0 then Some((s, INIT_GAS))
      else if value == 0 then Some((Gain(s, CLEAR_REFUND), CLEAN_GAS))
      else Some((s, CLEAN_GAS))
    else
      var s1 := if original == 0 then Some(s)
                else if current == 0 then Lose(s, CLEAR_REFUND)
                else if value == 0 then Some(Gain(s, CLEAR_REFUND))
                else Some(s);
      if s1.None? then None
      else if original != value then Some((s1.value, DIRTY_GAS))
      else Some((Gain(s1.value, if original == 0 then RESET_CLEAR_REFUND else RESET_REFUND), DIRTY_GAS))
  }

  /** SSTORE that is paid for: the gas function, then the write. */
  function SStore(input: Input, s: State, a: Address, key: nat, value: int): (r: Option<(State, nat)>)
  {
    match GasSStore(input, s, a, key, value)
    case None => None
    case Some((s1, gas)) => Some((SetState(input, s1, a, key, value), gas))
  }

  // ---------------------------------------------------------------------------------
  // Slots
  // ---------------------------------------------------------------------------------

  /** All slots, current and committed, agree; v's slot (a, key) may have another value. */
  ghost predicate SlotsBut(input: Input, v: World, w: World, a: Address, key: nat, value: int)
  {
    (forall b: Address, k: nat :: Committed(input, b, At(input, w, b), k) == Committed(input, b, At(input, v, b), k)) &&
    (forall b: Address, k: nat ::
       Slot(input, b, At(input, w, b), k) == if (b, k) == (a, key) then value else Slot(input, b, At(input, v, b), k))
  }

  ghost predicate SameSlots(input: Input, v: World, w: World)
  {
    (forall b: Address, k: nat :: Committed(input, b, At(input, w, b), k) == Committed(input, b, At(input, v, b), k)) &&
    (forall b: Address, k: nat :: Slot(input, b, At(input, w, b), k) == Slot(input, b, At(input, v, b), k))
  }

  lemma SameSlotsAt(input: Input, v: World, w: World, a: Address)
    requires forall b: Address :: b != a ==> At(input, w, b) == At(input, v, b)
    requires SameStorage(input, a, At(input, v, a), At(input, w, a))
    ensures SameSlots(input, v, w)
  {
    forall b: Address, k: nat
      ensures Committed(input, b, At(input, w, b), k) == Committed(input, b, At(input, v, b), k)
      ensures Slot(input, b, At(input, w, b), k) == Slot(input, b, At(input, v, b), k)
    {
      if b == a {
        assert Slot(input, a, At(input, v, a), k) == Slot(input, a, At(input, w, a), k);
        assert Committed(input, a, At(input, v, a), k) == Committed(input, a, At(input, w, a), k);
      }
    }
  }

  /** The slots whose original value is non-zero and whose current value is zero. */
  ghost function Cleared(input: Input, w: World): (c: set<(Address, nat)>)
  {
    set a, k | a in w.accounts && w.accounts[a].body.Some? && k in w.accounts[a].body.value.storageDirty &&
               Committed(input, a, w.accounts[a], k) != 0 && Slot(input, a, w.accounts[a], k) == 0 :: (a, k)
  }

  lemma ClearedIff(input: Input, w: World, a: Address, k: nat)
    ensures (a, k) in Cleared(input, w) <==> Committed(input, a, At(input, w, a), k) != 0 && Slot(input, a, At(input, w, a), k) == 0
  {
  }

  lemma SameSlotsSameCleared(input: Input, v: World, w: World)
    requires SameSlots(input, v, w)
    ensures Cleared(input, v) == Cleared(input, w)
  {
    forall a: Address, k: nat ensures (a, k) in Cleared(input, v) <==> (a, k) in Cleared(input, w) {
      ClearedIff(input, v, a, k);
      ClearedIff(input, w, a, k);
    }
  }

  /** A write changes the set by its own slot at most. */
  lemma WriteCleared(input: Input, v: World, w: World, a: Address, key: nat, value: int)
    requires SlotsBut(input, v, w, a, key, value)
    ensures var c := Cleared(input, v);
            Cleared(input, w) == if Committed(input, a, At(input, v, a), key) != 0 && value == 0 then c + {(a, key)} else c - {(a, key)}
  {
    var d := Cleared(input, v);
    var e := if Committed(input, a, At(input, v, a), key) != 0 && value == 0 then d + {(a, key)} else d - {(a, key)};
    forall b: Address, k: nat ensures (b, k) in Cleared(input, w) <==> (b, k) in e {
      ClearedIff(input, v, b, k);
      ClearedIff(input, w, b, k);
    }
  }

  // ---------------------------------------------------------------------------------
  // What a write does
  // ---------------------------------------------------------------------------------

  lemma ReadsKeepSlots(input: Input, s: State, a: Address, key: nat)
    ensures SameSlots(input, s.world, AfterReads(input, s, a, key).world)
    ensures SameSlots(input, s.world, SetAcct(s, a, CacheSlot(input, a, At(input, s.world, a), key)).world)
  {
    var x := At(input, s.world, a);
    var y := CacheSlot(input, a, x, key);
    CachesAreNeutral(input, a, x, key);
    CachesAreNeutral(input, a, y, key);
    StorageThen(input, a, x, y, CacheCommitted(input, a, y, key));
    SameSlotsAt(input, s.world, SetAcct(s, a, y).world, a);
    SameSlotsAt(input, s.world, AfterReads(input, s, a, key).world, a);
  }

  lemma StorageThen(input: Input, a: Address, x: Acct, y: Acct, z: Acct)
    requires SameStorage(input, a, x, y) && SameStorage(input, a, y, z)
    ensures SameStorage(input, a, x, z)
  {
    forall k: nat
      ensures Slot(input, a, x, k) == Slot(input, a, z, k) && Committed(input, a, x, k) == Committed(input, a, z, k) {
      assert Slot(input, a, x, k) == Slot(input, a, y, k);
      assert Committed(input, a, x, k) == Committed(input, a, y, k);
    }
  }

  /** The change of the refund counter, where nothing wraps. */
  function RefundDelta(original: int, current: int, value: int): (d: int)
  {
    if current == value then 0
    else if original == current then (if original != 0 && value == 0 then 15000 else 0)
    else
      (if original == 0 then 0 else if current == 0 then -15000 else if value == 0 then 15000 else 0) +
      (if original != value then 0 else if original == 0 then 19800 else 4800)
  }

  /** The gas function panics exactly when the counter is too small, adjusts it, and leaves
      every slot alone. */
  lemma GasEffect(input: Input, s: State, a: Address, key: nat, value: int)
    requires s.world.refund + SUICIDE_REFUND < Journal.TWO_TO_THE_64
    ensures var x := At(input, s.world, a);
            var original, current := Committed(input, a, x, key), Slot(input, a, x, key);
            var r := GasSStore(input, s, a, key, value);
            (r.None? <==> original != 0 && current == 0 && value != 0 && s.world.refund < CLEAR_REFUND) &&
            (r.Some? ==> SameSlots(input, s.world, r.value.0.world) &&
                         r.value.0.world.refund == s.world.refund + RefundDelta(original, current, value) &&
                         s.reverts <= r.value.0.reverts && a in r.value.0.world.accounts)
  {
    ReadsKeepSlots(input, s, a, key);
    var r := GasSStore(input, s, a, key, value);
    if r.Some? {
      var s1 := AfterReads(input, s, a, key);
      if Slot(input, a, At(input, s.world, a), key) != value {
        assert r.value.0.world.accounts == s1.world.accounts;
        SameAccountsSameSlots(input, s1.world, r.value.0.world);
      }
    }
  }

  lemma SameAccountsSameSlots(input: Input, v: World, w: World)
    requires v.accounts == w.accounts
    ensures SameSlots(input, v, w)
  {
  }

  lemma SetStateEffect(input: Input, s: State, a: Address, key: nat, value: int)
    requires a in s.world.accounts
    ensures var r := SetState(input, s, a, key, value);
            SlotsBut(input, s.world, r.world, a, key, value) && r.world.refund == s.world.refund && s.reverts <= r.reverts
  {
    var s1 := Ensure(s, a);
    var x := s1.world.accounts[a];
    var r := SetState(input, s, a, key, value);
    CachesAreNeutral(input, a, x, key);
    SetStateAcct(input, s, a, key, value);
    forall b: Address, k: nat
      ensures Committed(input, b, At(input, r.world, b), k) == Committed(input, b, At(input, s.world, b), k)
      ensures Slot(input, b, At(input, r.world, b), k) ==
              if (b, k) == (a, key) then value else Slot(input, b, At(input, s.world, b), k)
    {
      if b == a {
        assert Slot(input, a, x, k) == Slot(input, a, CacheSlot(input, a, x, key), k);
        assert Committed(input, a, x, k) == Committed(input, a, CacheSlot(input, a, x, key), k);
      }
    }
  }

  /** The account after a write. */
  lemma SetStateAcct(input: Input, s: State, a: Address, key: nat, value: int)
    requires a in s.world.accounts
    ensures var x := Ensure(s, a).world.accounts[a];
            var y := CacheSlot(input, a, x, key);
            var z := SetState(input, s, a, key, value).world.accounts[a];
            y.body.Some? && z.body.Some? && z.body.value.rec == y.body.value.rec && z.body.value.origin == y.body.value.origin &&
            z.body.value.storageDirty == (if Slot(input, a, x, key) == value then y.body.value.storageDirty
                                          else y.body.value.storageDirty[key := value]) &&
            Slot(input, a, y, key) == Slot(input, a, x, key)
    ensures forall b :: b != a ==> At(input, SetState(input, s, a, key, value).world, b) == At(input, s.world, b)
  {
    CachesAreNeutral(input, a, Ensure(s, a).world.accounts[a], key);
  }

  /** SSTORE writes the slot and nothing else. */
  lemma SStoreEffect(input: Input, s: State, a: Address, key: nat, value: int)
    requires s.world.refund + SUICIDE_REFUND < Journal.TWO_TO_THE_64 && SStore(input, s, a, key, value).Some?
    ensures var (r, gas) := SStore(input, s, a, key, value).value;
            var x := At(input, s.world, a);
            SlotsBut(input, s.world, r.world, a, key, value) && s.reverts <= r.reverts &&
            r.world.refund == s.world.refund + RefundDelta(Committed(input, a, x, key), Slot(input, a, x, key), value)
  {
    GasEffect(input, s, a, key, value);
    var s1 := GasSStore(input, s, a, key, value).value.0;
    SetStateEffect(input, s1, a, key, value);
    SlotsThen(input, s.world, s1.world, SStore(input, s, a, key, value).value.0.world, a, key, value);
  }

  lemma SlotsThen(input: Input, u: World, v: World, w: World, a: Address, key: nat, value: int)
    requires SameSlots(input, u, v) && SlotsBut(input, v, w, a, key, value)
    ensures SlotsBut(input, u, w, a, key, value)
  {
    forall b: Address, k: nat
      ensures Committed(input, b, At(input, w, b), k) == Committed(input, b, At(input, u, b), k)
      ensures Slot(input, b, At(input, w, b), k) == if (b, k) == (a, key) then value else Slot(input, b, At(input, u, b), k)
    {
      assert Committed(input, b, At(input, w, b), k) == Committed(input, b, At(input, v, b), k);
      assert Slot(input, b, At(input, v, b), k) == Slot(input, b, At(input, u, b), k);
    }
  }

  // ---------------------------------------------------------------------------------
  // Path independence
  // ---------------------------------------------------------------------------------

  /** What a slot has cost beyond the 200 per write, by its original and its current value. */
  function Potential(original: int, current: int): (p: int)
  {
    if current == original then 0
    else if original == 0 then 19800
    else if current == 0 then -10200
    else 4800
  }

  /** The writes of `values` to one slot; the result has the state and the gas charged. */
  function Writes(input: Input, s: State, a: Address, key: nat, values: seq<int>): (r: Option<(State, nat)>)
    decreases |values|
  {
    if values == [] then Some((s, 0))
    else
      match SStore(input, s, a, key, values[0])
      case None => None
      case Some((s1, gas)) =>
        match Writes(input, s1, a, key, values[1..])
        case None => None
        case Some((s2, rest)) => Some((s2, gas + rest))
  }

  /** The charge of one write moves the potential. */
  lemma GasMovesPotential(input: Input, s: State, a: Address, key: nat, value: int)
    requires s.world.refund + SUICIDE_REFUND < Journal.TWO_TO_THE_64 && SStore(input, s, a, key, value).Some?
    ensures var (r, gas) := SStore(input, s, a, key, value).value;
            var x := At(input, s.world, a);
            var original, current := Committed(input, a, x, key), Slot(input, a, x, key);
            gas - (r.world.refund - s.world.refund) == 200 + Potential(original, value) - Potential(original, current)
  {
    SStoreEffect(input, s, a, key, value);
  }

  /** EIP-1283: gas charged minus refund gained over any sequence of writes to a slot depends
      only on their number, the original value and the last one. */
  lemma {:induction false} PathIndependence(input: Input, s: State, a: Address, key: nat, values: seq<int>)
    requires s.world.refund + SUICIDE_REFUND * (|values| + 1) < Journal.TWO_TO_THE_64
    requires Writes(input, s, a, key, values).Some?
    ensures var (r, gas) := Writes(input, s, a, key, values).value;
            var x := At(input, s.world, a);
            var original, current := Committed(input, a, x, key), Slot(input, a, x, key);
            var last := if values == [] then current else values[|values| - 1];
            gas - (r.world.refund - s.world.refund) ==
            200 * |values| + Potential(original, last) - Potential(original, current)
    decreases |values|
  {
    if values != [] {
      SStoreEffect(input, s, a, key, values[0]);
      GasMovesPotential(input, s, a, key, values[0]);
      var s1 := SStore(input, s, a, key, values[0]).value.0;
      PathIndependence(input, s1, a, key, values[1..]);
    }
  }

  // ---------------------------------------------------------------------------------
  // The refund counter over call trees
  // ---------------------------------------------------------------------------------

  /** The counter covers a refund for every cleared slot. */
  ghost predicate Covered(input: Input, w: World)
  {
    w.refund >= CLEAR_REFUND * |Cleared(input, w)|
  }

  /** What a frame does: writes it pays for, other operations, self-destructs with their
      refund, code that `create` stores when there is none, and inner frames. */
  datatype Action =
    | Write(a: Address, key: nat, value: int)
    | Other(op: Op)
    | Destroy(a: Address, heir: Address)
    | Deploy(a: Address, code: Bytes)
    | Inner(frame: Frame)

  /** How a frame ends: well; by a revert or an error; or for lack of the gas for an SSTORE or
      a SELFDESTRUCT whose gas function has run already. */
  datatype Ending = Done | Failed | Starved(a: Address, key: nat, value: int) | StarvedDestroy

  datatype Frame = Frame(body: seq<Action>, end: Ending)

  /** The operations that are not themselves part of the accounting. */
  predicate Plain(op: Op, loose: set<Address>)
  {
    !op.PutSlot? && !op.GainRefund? && !op.LoseRefund? && !op.RevertTo? && !op.PutCode? && (op.PutRaw? ==> op.a in loose)
  }

  predicate AllWellFormed(body: seq<Action>, loose: set<Address>)
    decreases body, 1
  {
    body == [] || (ActionWellFormed(body[0], loose) && AllWellFormed(body[1..], loose))
  }

  predicate ActionWellFormed(x: Action, loose: set<Address>)
    decreases x, 1
  {
    match x
    case Other(op) => Plain(op, loose)
    case Inner(f) => AllWellFormed(f.body, loose)
    case _ => true
  }

  /** How many actions there are, each with refunds of at most 24000. */
  function Count(x: Action): (n: nat)
    decreases x, 1
  {
    match x
    case Inner(f) => 1 + CountAll(f.body)
    case _ => 1
  }

  function CountAll(body: seq<Action>): (n: nat)
    decreases body, 1
  {
    if body == [] then 0 else Count(body[0]) + CountAll(body[1..])
  }

  /** Why a run stops early: `SubRefund` panicked, or another operation did. */
  datatype Outcome = Ran(s: State) | RefundPanic | OtherPanic

  /** A frame: snapshot, body, and on failure `RevertToSnapshot`. */
  function ExecFrame(input: Input, s: State, f: Frame): (r: Outcome)
    decreases f, 0
  {
    match Exec(input, s, f.body)
    case Ran(s1) => End(input, s, s1, f.end)
    case stopped => stopped
  }

  /** The end of a frame entered in state s, after its body has led to s1. */
  function End(input: Input, s: State, s1: State, end: Ending): (r: Outcome)
  {
    if end.Done? then Ran(s1)
    else
      var s2 := if end.Starved? then GasSStore(input, s1, end.a, end.key, end.value)
                else Some((if end.StarvedDestroy? then Gain(s1, SUICIDE_REFUND) else s1, 0));
      if s2.None? then RefundPanic
      else
        match Do(input, s2.value.0, RevertTo(|s.reverts|))
        case Some(s3) => Ran(s3)
        case None => OtherPanic
  }

  function Exec(input: Input, s: State, body: seq<Action>): (r: Outcome)
    decreases body, 1
  {
    if body == [] then Ran(s)
    else
      match ExecAction(input, s, body[0])
      case Ran(s1) => Exec(input, s1, body[1..])
      case stopped => stopped
  }

  function ExecAction(input: Input, s: State, x: Action): (r: Outcome)
    decreases x, 1
  {
    match x
    case Write(a, key, value) =>
      (match SStore(input, s, a, key, value)
       case Some((s1, _)) => Ran(s1)
       case None => RefundPanic)
    case Other(op) =>
      (match Do(input, s, op)
       case Some(s1) => Ran(s1)
       case None => OtherPanic)
    case Destroy(a, heir) => Ran(Suicide(input, Fetch(input, Gain(s, SUICIDE_REFUND), a), a, heir))
    case Deploy(a, code) =>
      if NoCodeAt(At(input, s.world, a)) then Ran(SetCode(input, Fetch(input, s, a), a, code)) else Ran(s)
    case Inner(f) => ExecFrame(input, s, f)
  }

  // ---------------------------------------------------------------------------------
  // Other operations leave the slots alone
  // ---------------------------------------------------------------------------------

  /** The same slots, and no refund given or taken. */
  ghost predicate Calm(input: Input, v: World, w: World)
  {
    SameSlots(input, v, w) && v.refund == w.refund
  }

  lemma CalmThen(input: Input, u: World, v: World, w: World)
    requires Calm(input, u, v) && Calm(input, v, w)
    ensures Calm(input, u, w)
  {
    forall b: Address, k: nat
      ensures Committed(input, b, At(input, w, b), k) == Committed(input, b, At(input, u, b), k)
      ensures Slot(input, b, At(input, w, b), k) == Slot(input, b, At(input, u, b), k)
    {
      assert Committed(input, b, At(input, w, b), k) == Committed(input, b, At(input, v, b), k);
      assert Slot(input, b, At(input, w, b), k) == Slot(input, b, At(input, v, b), k);
    }
  }

  /** An account changed in anything but storage. */
  lemma CalmAt(input: Input, v: World, w: World, a: Address)
    requires a in v.accounts && a in w.accounts && w.accounts == v.accounts[a := w.accounts[a]] && v.refund == w.refund
    requires SameStorage(input, a, v.accounts[a], w.accounts[a])
    ensures Calm(input, v, w)
  {
    SameSlotsAt(input, v, w, a);
  }

  lemma FetchIsCalm(input: Input, s: State, a: Address)
    ensures Calm(input, s.world, Fetch(input, s, a).world)
  {
    SameSlotsAt(input, s.world, Fetch(input, s, a).world, a);
  }

  lemma EnsureIsCalm(input: Input, s: State, a: Address)
    requires a in s.world.accounts
    ensures Calm(input, s.world, Ensure(s, a).world)
  {
    CalmAt(input, s.world, Ensure(s, a).world, a);
  }

  lemma AddBalanceIsCalm(input: Input, s: State, a: Address, amount: int)
    requires a in s.world.accounts
    ensures Calm(input, s.world, AddBalance(s, a, amount).world)
  {
    EnsureIsCalm(input, s, a);
    var s1, r := Ensure(s, a), AddBalance(s, a, amount);
    CalmAt(input, s1.world, r.world, a);
    CalmThen(input, s.world, s1.world, r.world);
  }

  lemma AfterEnsureIsCalm(input: Input, s: State, r: State, a: Address)
    requires a in s.world.accounts && a in r.world.accounts && r.world.refund == s.world.refund
    requires r.world.accounts == Ensure(s, a).world.accounts[a := r.world.accounts[a]]
    requires SameStorage(input, a, Ensure(s, a).world.accounts[a], r.world.accounts[a])
    ensures Calm(input, s.world, r.world)
  {
    EnsureIsCalm(input, s, a);
    CalmAt(input, Ensure(s, a).world, r.world, a);
    CalmThen(input, s.world, Ensure(s, a).world, r.world);
  }

  lemma SuicideIsCalm(input: Input, s: State, a: Address, heir: Address)
    requires a in s.world.accounts
    ensures Calm(input, s.world, Suicide(input, s, a, heir).world)
  {
    var s1 := Fetch(input, s, heir);
    FetchIsCalm(input, s, heir);
    var x := s1.world.accounts[a];
    if x.body.None? {
      AddBalanceIsCalm(input, s1, heir, 0);
      CalmThen(input, s.world, s1.world, Suicide(input, s, a, heir).world);
    } else {
      var s2 := AddBalance(s1, heir, x.body.value.rec.balance);
      AddBalanceIsCalm(input, s1, heir, x.body.value.rec.balance);
      ExistsStill(s1, heir, x.body.value.rec.balance, a);
      CalmThen(input, s.world, s1.world, s2.world);
      CalmAt(input, s2.world, Die(s2, a).world, a);
      CalmThen(input, s.world, s2.world, Die(s2, a).world);
    }
  }

  lemma ReadIsCalm(input: Input, s: State, a: Address, y: Acct)
    requires SameStorage(input, a, At(input, s.world, a), y)
    ensures Calm(input, s.world, SetAcct(s, a, y).world)
  {
    SameSlotsAt(input, s.world, SetAcct(s, a, y).world, a);
  }

  lemma PlainIsCalm(input: Input, s: State, op: Op, loose: set<Address>)
    requires Plain(op, loose) && Do(input, s, op).Some?
    ensures Calm(input, s.world, Do(input, s, op).value.world)
  {
    hide Calm, SameSlots, AddBalance, Suicide, SameStorage, Loaded;
    var r := Do(input, s, op).value;
    match op
    case Load(a) => FetchIsCalm(input, s, a);
    case ReadSlot(a, key) => CachesAreNeutral(input, a, At(input, s.world, a), key); ReadIsCalm(input, s, a, CacheSlot(input, a, At(input, s.world, a), key));
    case ReadCommitted(a, key) => CachesAreNeutral(input, a, At(input, s.world, a), key); ReadIsCalm(input, s, a, CacheCommitted(input, a, At(input, s.world, a), key));
    case ReadCode(a) => CachesAreNeutral(input, a, At(input, s.world, a), 0); ReadIsCalm(input, s, a, CacheCode(input, At(input, s.world, a)));
    case Log(_) => UnchangedIsCalm(input, s.world, r.world);
    case PutTransient(_, _, _) => UnchangedIsCalm(input, s.world, r.world);
    case SelfDestruct(a, heir) =>
      FetchIsCalm(input, s, a);
      SuicideIsCalm(input, Fetch(input, s, a), a, heir);
      CalmThen(input, s.world, Fetch(input, s, a).world, r.world);
    case Credit(a, amount) =>
      FetchIsCalm(input, s, a);
      AddBalanceIsCalm(input, Fetch(input, s, a), a, amount);
      CalmThen(input, s.world, Fetch(input, s, a).world, r.world);
    case Debit(a, _) => BodyChangeIsCalm(input, s, op, a);
    case PutNonceOf(a, _) => BodyChangeIsCalm(input, s, op, a);
    case NextNonce(a) => BodyChangeIsCalm(input, s, op, a);
    case PutRaw(a, _, _) => BodyChangeIsCalm(input, s, op, a);
    case PutSlot(_, _, _) =>
    case PutCode(_, _) =>
    case GainRefund(_) =>
    case LoseRefund(_) =>
    case RevertTo(_) =>
  }

  /** A change of the account, fetched and brought into existence, in anything but storage. */
  lemma ChangeIsCalm(input: Input, s: State, r: State, a: Address)
    requires a in r.world.accounts && r.world.refund == s.world.refund
    requires var s1 := Fetch(input, s, a);
             r.world.accounts == Ensure(s1, a).world.accounts[a := r.world.accounts[a]] &&
             SameStorage(input, a, Ensure(s1, a).world.accounts[a], r.world.accounts[a])
    ensures Calm(input, s.world, r.world)
  {
    FetchIsCalm(input, s, a);
    AfterEnsureIsCalm(input, Fetch(input, s, a), r, a);
    CalmThen(input, s.world, Fetch(input, s, a).world, r.world);
  }

  lemma BodyChangeIsCalm(input: Input, s: State, op: Op, a: Address)
    requires (op.Debit? || op.PutNonceOf? || op.NextNonce? || op.PutRaw?) && op.a == a && Do(input, s, op).Some?
    ensures Calm(input, s.world, Do(input, s, op).value.world)
  {
    hide Calm, SameSlots, Loaded;
    ChangeIsCalm(input, s, Do(input, s, op).value, a);
  }

  lemma UnchangedIsCalm(input: Input, v: World, w: World)
    requires v.accounts == w.accounts && v.refund == w.refund
    ensures Calm(input, v, w)
  {
  }

  lemma SameIsCalm(input: Input, v: World, w: World, loose: set<Address>)
    requires Same(input, v, w, loose)
    ensures Calm(input, v, w)
  {
    forall b: Address, k: nat
      ensures Committed(input, b, At(input, w, b), k) == Committed(input, b, At(input, v, b), k)
      ensures Slot(input, b, At(input, w, b), k) == Slot(input, b, At(input, v, b), k)
    {
      assert SameAcct(input, b, At(input, v, b), At(input, w, b), b in loose);
      assert Slot(input, b, At(input, v, b), k) == Slot(input, b, At(input, w, b), k);
      assert Committed(input, b, At(input, v, b), k) == Committed(input, b, At(input, w, b), k);
    }
  }

  lemma CalmKeepsCovered(input: Input, v: World, w: World)
    requires Calm(input, v, w) && Covered(input, v)
    ensures Covered(input, w)
  {
    SameSlotsSameCleared(input, v, w);
  }

  // ---------------------------------------------------------------------------------
  // The invariant
  // ---------------------------------------------------------------------------------

  /** The gas function of SSTORE does not panic, and the write after it keeps the cover. */
  lemma WriteKeepsCovered(input: Input, s: State, a: Address, key: nat, value: int)
    requires Covered(input, s.world) && s.world.refund + SUICIDE_REFUND < Journal.TWO_TO_THE_64
    ensures GasSStore(input, s, a, key, value).Some? && SStore(input, s, a, key, value).Some?
    ensures Covered(input, SStore(input, s, a, key, value).value.0.world)
    ensures SStore(input, s, a, key, value).value.0.world.refund <= s.world.refund + SUICIDE_REFUND
  {
    hide Cleared, SameSlots, SlotsBut, GasSStore, SetState, Slot, Committed;
    ClearedIff(input, s.world, a, key);
    GasEffect(input, s, a, key, value);
    NotEmpty(Cleared(input, s.world), (a, key));
    SStoreEffect(input, s, a, key, value);
    var r := SStore(input, s, a, key, value).value.0;
    WriteCleared(input, s.world, r.world, a, key, value);
    SetSizes(Cleared(input, s.world), (a, key));
  }

  lemma NotEmpty<T>(c: set<T>, x: T)
    ensures x in c ==> |c| >= 1
  {
  }

  lemma SetSizes<T>(c: set<T>, x: T)
    ensures |c + {x}| == if x in c then |c| else |c| + 1
    ensures |c - {x}| == if x in c then |c| - 1 else |c|
  {
    if x in c { assert c + {x} == c; } else { assert c - {x} == c; }
  }

  lemma GasUndoes(input: Input, s: State, a: Address, key: nat, value: int, loose: set<Address>)
    requires GasSStore(input, s, a, key, value).Some?
    ensures Undoes(input, s, GasSStore(input, s, a, key, value).value.0, loose)
  {
    hide Undoes;
    var x := At(input, s.world, a);
    var y := CacheSlot(input, a, x, key);
    var sy, s1 := SetAcct(s, a, y), AfterReads(input, s, a, key);
    var r := GasSStore(input, s, a, key, value).value.0;
    CachesAreNeutral(input, a, x, key);
    CachesAreNeutral(input, a, y, key);
    NeutralUndoes(input, s, a, y, loose);
    NeutralUndoes(input, sy, a, CacheCommitted(input, a, y, key), loose);
    assert SetAcct(sy, a, CacheCommitted(input, a, y, key)) == s1;
    UndoesThen(input, s, sy, s1, loose);
    if Slot(input, a, x, key) != value {
      RefundsUndo(input, s1, r, Committed(input, a, x, key), Slot(input, a, x, key), value, loose);
      UndoesThen(input, s, s1, r, loose);
    }
  }

  /** The at most two changes of the counter. */
  lemma RefundsUndo(input: Input, s1: State, r: State, original: int, current: int, value: int, loose: set<Address>)
    requires r == s1 || r == Gain(s1, CLEAR_REFUND) || r == Gain(s1, RESET_CLEAR_REFUND) || r == Gain(s1, RESET_REFUND) ||
             (s1.world.refund >= CLEAR_REFUND &&
              var s2 := PutRefund(s1, s1.world.refund - CLEAR_REFUND); r == s2 || r == Gain(s2, RESET_REFUND))
    ensures Undoes(input, s1, r, loose)
  {
    hide Undoes;
    if r == s1 {
      FetchNothingUndoes(input, s1, loose);
    } else if r == PutRefund(s1, r.world.refund) {
      RefundUndoes(input, s1, r.world.refund, loose);
    } else {
      var s2 := PutRefund(s1, s1.world.refund - CLEAR_REFUND);
      RefundUndoes(input, s1, s2.world.refund, loose);
      RefundUndoes(input, s2, r.world.refund, loose);
      UndoesThen(input, s1, s2, r, loose);
    }
  }

  lemma SStoreUndoes(input: Input, s: State, a: Address, key: nat, value: int, loose: set<Address>)
    requires SStore(input, s, a, key, value).Some?
    ensures Undoes(input, s, SStore(input, s, a, key, value).value.0, loose)
  {
    var s1 := GasSStore(input, s, a, key, value).value.0;
    GasUndoes(input, s, a, key, value, loose);
    SetStateUndoes(input, s1, a, key, value, loose);
    UndoesThen(input, s, s1, SStore(input, s, a, key, value).value.0, loose);
  }

  lemma DestroyStep(input: Input, s: State, a: Address, heir: Address, loose: set<Address>)
    requires RIPEMD in loose && Covered(input, s.world) && s.world.refund + SUICIDE_REFUND < Journal.TWO_TO_THE_64
    ensures var r := ExecAction(input, s, Destroy(a, heir)).s;
            Covered(input, r.world) && Undoes(input, s, r, loose) && r.world.refund == s.world.refund + SUICIDE_REFUND
  {
    hide Undoes;
    var s1 := Gain(s, SUICIDE_REFUND);
    var s2 := Fetch(input, s1, a);
    var r := Suicide(input, s2, a, heir);
    RefundUndoes(input, s, s1.world.refund, loose);
    FetchUndoes(input, s1, a, loose);
    UndoesThen(input, s, s1, s2, loose);
    SuicideUndoes(input, s2, a, heir, loose);
    UndoesThen(input, s, s2, r, loose);
    SameAccountsSameSlots(input, s.world, s1.world);
    SameSlotsSameCleared(input, s.world, s1.world);
    FetchIsCalm(input, s1, a);
    SuicideIsCalm(input, s2, a, heir);
    CalmThen(input, s1.world, s2.world, r.world);
    CalmKeepsCovered(input, s1.world, r.world);
  }

  lemma DeployStep(input: Input, s: State, a: Address, code: Bytes, loose: set<Address>)
    requires Covered(input, s.world)
    ensures var r := ExecAction(input, s, Deploy(a, code)).s;
            Covered(input, r.world) && Undoes(input, s, r, loose) && r.world.refund == s.world.refund
  {
    hide Undoes;
    var r := ExecAction(input, s, Deploy(a, code)).s;
    if NoCodeAt(At(input, s.world, a)) {
      var s1 := Fetch(input, s, a);
      FetchUndoes(input, s, a, loose);
      SetCodeUndoes(input, s1, a, code, loose);
      UndoesThen(input, s, s1, r, loose);
      FetchIsCalm(input, s, a);
      AfterEnsureIsCalm(input, s1, r, a);
      CalmThen(input, s.world, s1.world, r.world);
      CalmKeepsCovered(input, s.world, r.world);
    } else {
      FetchNothingUndoes(input, s, loose);
    }
  }

  /** The end of a frame, well or by revert. */
  lemma EndStep(input: Input, s: State, s1: State, end: Ending, loose: set<Address>)
    requires Covered(input, s.world) && Covered(input, s1.world) && Undoes(input, s, s1, loose)
    requires s1.world.refund + SUICIDE_REFUND < Journal.TWO_TO_THE_64
    ensures End(input, s, s1, end).Ran?
    ensures var r := End(input, s, s1, end).s;
            Covered(input, r.world) && Undoes(input, s, r, loose) && (r.world.refund == s.world.refund || r == s1)
  {
    hide Covered, SameSlots, Same;
    ReachesLater(input, s, s1, loose);
    if !end.Done? {
      var s2 := s1;
      if end.Starved? {
        WriteKeepsCovered(input, s1, end.a, end.key, end.value);
        s2 := GasSStore(input, s1, end.a, end.key, end.value).value.0;
        GasUndoes(input, s1, end.a, end.key, end.value, loose);
        UndoesThen(input, s, s1, s2, loose);
      } else if end.StarvedDestroy? {
        s2 := Gain(s1, SUICIDE_REFUND);
        RefundUndoes(input, s1, s2.world.refund, loose);
        UndoesThen(input, s, s1, s2, loose);
      }
      RevertKeepsUndoing(input, s, s2, |s.reverts|, loose);
      RevertedIsCalm(input, s, Revert(s2, |s.reverts|), loose);
      CalmKeepsCovered(input, s.world, Revert(s2, |s.reverts|).world);
    }
  }

  lemma ReachesLater(input: Input, s: State, s1: State, loose: set<Address>)
    requires Undoes(input, s, s1, loose)
    ensures |s.reverts| <= |s1.reverts|
  {
  }

  lemma RevertedIsCalm(input: Input, s: State, r: State, loose: set<Address>)
    requires Undoes(input, s, r, loose) && |r.reverts| == |s.reverts|
    ensures Calm(input, s.world, r.world)
  {
    assert r.reverts[|s.reverts|..] == [];
    SameIsCalm(input, s.world, r.world, loose);
  }

  /** Over every call tree the counter keeps covering the cleared slots, so that `SubRefund`
      never panics; and a failed frame gives back exactly the refunds of its own. */
  lemma {:induction false} ExecCovered(input: Input, s: State, body: seq<Action>, loose: set<Address>)
    requires RIPEMD in loose && AllWellFormed(body, loose) && Covered(input, s.world)
    requires s.world.refund + SUICIDE_REFUND * (CountAll(body) + 1) < Journal.TWO_TO_THE_64
    ensures Exec(input, s, body) != RefundPanic
    ensures Exec(input, s, body).Ran? ==>
              var r := Exec(input, s, body).s;
              Covered(input, r.world) && Undoes(input, s, r, loose) &&
              r.world.refund <= s.world.refund + SUICIDE_REFUND * CountAll(body)
    decreases body, 1
  {
    hide Undoes, Covered;
    if body == [] {
      FetchNothingUndoes(input, s, loose);
    } else {
      ActionCovered(input, s, body[0], loose);
      if ExecAction(input, s, body[0]).Ran? {
        var s1 := ExecAction(input, s, body[0]).s;
        ExecCovered(input, s1, body[1..], loose);
        if Exec(input, s, body).Ran? { UndoesThen(input, s, s1, Exec(input, s, body).s, loose); }
      }
    }
  }

  lemma {:induction false} ActionCovered(input: Input, s: State, x: Action, loose: set<Address>)
    requires RIPEMD in loose && ActionWellFormed(x, loose) && Covered(input, s.world)
    requires s.world.refund + SUICIDE_REFUND * (Count(x) + 1) < Journal.TWO_TO_THE_64
    ensures ExecAction(input, s, x) != RefundPanic
    ensures ExecAction(input, s, x).Ran? ==>
              var r := ExecAction(input, s, x).s;
              Covered(input, r.world) && Undoes(input, s, r, loose) &&
              r.world.refund <= s.world.refund + SUICIDE_REFUND * Count(x)
    decreases x, 1
  {
    hide Undoes, Covered;
    match x
    case Write(a, key, value) =>
      WriteKeepsCovered(input, s, a, key, value);
      SStoreUndoes(input, s, a, key, value, loose);
    case Other(op) =>
      if Do(input, s, op).Some? {
        PlainIsCalm(input, s, op, loose);
        CalmKeepsCovered(input, s.world, Do(input, s, op).value.world);
        DoUndoes(input, s, op, 0, loose);
      }
    case Destroy(a, heir) => DestroyStep(input, s, a, heir, loose);
    case Deploy(a, code) => DeployStep(input, s, a, code, loose);
    case Inner(f) =>
      ExecCovered(input, s, f.body, loose);
      if Exec(input, s, f.body).Ran? { EndStep(input, s, Exec(input, s, f.body).s, f.end, loose); }
  }

  /** Where no slot differs from its committed value none is cleared. */
  lemma FreshIsCovered(input: Input, w: World)
    requires forall a, key: nat :: Slot(input, a, At(input, w, a), key) == Committed(input, a, At(input, w, a), key)
    ensures Covered(input, w)
  {
    if Cleared(input, w) != {} {
      var x :| x in Cleared(input, w);
      ClearedIff(input, w, x.0, x.1);
    }
  }

  /** A transaction starts with every slot at its committed value, though an account kept loaded
      may still have pending writes of just that value.  The counter may start anywhere. */
  lemma RefundNeverBelowZero(input: Input, s: State, body: seq<Action>, loose: set<Address>)
    requires RIPEMD in loose && AllWellFormed(body, loose)
    requires forall a, key: nat :: Slot(input, a, At(input, s.world, a), key) == Committed(input, a, At(input, s.world, a), key)
    requires s.world.refund + SUICIDE_REFUND * (CountAll(body) + 1) < Journal.TWO_TO_THE_64
    ensures Exec(input, s, body) != RefundPanic
    ensures Exec(input, s, body).Ran? ==> Covered(input, Exec(input, s, body).s.world)
  {
    FreshIsCovered(input, s.world);
    ExecCovered(input, s, body, loose);
  }

  // =================================================================================
  // What one slot costs over a whole transaction without failing frames, when writes to it are
  // interleaved with writes to other slots, self-destructs, deployments and inner frames.
  // =================================================================================

  predicate AllDone(body: seq<Action>)
    decreases body, 1
  {
    body == [] || (ActionDone(body[0]) && AllDone(body[1..]))
  }

  /** No frame in x fails. */
  predicate ActionDone(x: Action)
    decreases x, 1
  {
    x.Inner? ==> x.frame.end.Done? && AllDone(x.frame.body)
  }

  /** The number of writes to a slot, and the gas charged for them less the refund gained. */
  datatype Bill = Bill(writes: nat, net: int)

  function Sum(x: Bill, y: Bill): (r: Bill)
  {
    Bill(x.writes + y.writes, x.net + y.net)
  }

  function BillFor(input: Input, s: State, x: Action, a: Address, key: nat): (r: Bill)
    decreases x, 1
  {
    match x
    case Write(b, k, value) =>
      if b != a || k != key || SStore(input, s, b, k, value).None? then Bill(0, 0)
      else
        var (r, gas) := SStore(input, s, b, k, value).value;
        Bill(1, gas - (r.world.refund - s.world.refund))
    case Inner(f) => BillForAll(input, s, f.body, a, key)
    case _ => Bill(0, 0)
  }

  function BillForAll(input: Input, s: State, body: seq<Action>, a: Address, key: nat): (r: Bill)
    decreases body, 1
  {
    if body == [] then Bill(0, 0)
    else
      var first := BillFor(input, s, body[0], a, key);
      match ExecAction(input, s, body[0])
      case Ran(s1) => Sum(first, BillForAll(input, s1, body[1..], a, key))
      case _ => first
  }

  function SlotOf(input: Input, s: State, a: Address, key: nat): (v: int)
  {
    Slot(input, a, At(input, s.world, a), key)
  }

  function OriginalOf(input: Input, s: State, a: Address, key: nat): (v: int)
  {
    Committed(input, a, At(input, s.world, a), key)
  }

  /** The bill is 200 for each write and the change of the potential. */
  ghost predicate Balanced(input: Input, s: State, r: State, bill: Bill, a: Address, key: nat)
  {
    OriginalOf(input, r, a, key) == OriginalOf(input, s, a, key) &&
    bill.net == 200 * bill.writes + Potential(OriginalOf(input, s, a, key), SlotOf(input, r, a, key)) -
                                    Potential(OriginalOf(input, s, a, key), SlotOf(input, s, a, key))
  }

  lemma BalancedThen(input: Input, s: State, s1: State, r: State, x: Bill, y: Bill, a: Address, key: nat)
    requires Balanced(input, s, s1, x, a, key) && Balanced(input, s1, r, y, a, key)
    ensures Balanced(input, s, r, Sum(x, y), a, key)
  {
  }

  lemma SameSlotsBalanced(input: Input, s: State, r: State, a: Address, key: nat)
    requires SameSlots(input, s.world, r.world)
    ensures Balanced(input, s, r, Bill(0, 0), a, key)
  {
    assert Slot(input, a, At(input, r.world, a), key) == Slot(input, a, At(input, s.world, a), key);
    assert Committed(input, a, At(input, r.world, a), key) == Committed(input, a, At(input, s.world, a), key);
  }

  lemma WriteBalanced(input: Input, s: State, b: Address, k: nat, value: int, a: Address, key: nat)
    requires s.world.refund + SUICIDE_REFUND < Journal.TWO_TO_THE_64 && SStore(input, s, b, k, value).Some?
    ensures Balanced(input, s, SStore(input, s, b, k, value).value.0, BillFor(input, s, Write(b, k, value), a, key), a, key)
  {
    hide SStore, SameSlots;
    var r := SStore(input, s, b, k, value).value.0;
    SStoreEffect(input, s, b, k, value);
    assert Slot(input, a, At(input, r.world, a), key) == if a == b && key == k then value else Slot(input, a, At(input, s.world, a), key);
    assert Committed(input, a, At(input, r.world, a), key) == Committed(input, a, At(input, s.world, a), key);
    GasMovesPotential(input, s, b, k, value);
  }

  lemma DestroyKeepsSlots(input: Input, s: State, a: Address, heir: Address)
    ensures SameSlots(input, s.world, ExecAction(input, s, Destroy(a, heir)).s.world)
  {
    hide SameSlots, Suicide, Fetch;
    var s1 := Gain(s, SUICIDE_REFUND);
    var s2 := Fetch(input, s1, a);
    var r := Suicide(input, s2, a, heir);
    UnchangedButRefund(input, s.world, s1.world);
    FetchIsCalm(input, s1, a);
    SuicideIsCalm(input, s2, a, heir);
    CalmThen(input, s1.world, s2.world, r.world);
    SameSlotsThen(input, s.world, s1.world, r.world);
  }

  lemma UnchangedButRefund(input: Input, v: World, w: World)
    requires v.accounts == w.accounts
    ensures SameSlots(input, v, w)
  {
  }

  lemma SameSlotsThen(input: Input, u: World, v: World, w: World)
    requires SameSlots(input, u, v) && SameSlots(input, v, w)
    ensures SameSlots(input, u, w)
  {
    forall b: Address, k: nat
      ensures Committed(input, b, At(input, w, b), k) == Committed(input, b, At(input, u, b), k)
      ensures Slot(input, b, At(input, w, b), k) == Slot(input, b, At(input, u, b), k)
    {
      assert Slot(input, b, At(input, v, b), k) == Slot(input, b, At(input, u, b), k);
      assert Committed(input, b, At(input, v, b), k) == Committed(input, b, At(input, u, b), k);
    }
  }

  lemma DeployKeepsSlots(input: Input, s: State, a: Address, code: Bytes)
    ensures SameSlots(input, s.world, ExecAction(input, s, Deploy(a, code)).s.world)
  {
    hide SameSlots;
    var r := ExecAction(input, s, Deploy(a, code)).s;
    if NoCodeAt(At(input, s.world, a)) {
      var s1 := Fetch(input, s, a);
      FetchIsCalm(input, s, a);
      AfterEnsureIsCalm(input, s1, r, a);
      CalmThen(input, s.world, s1.world, r.world);
    } else {
      UnchangedButRefund(input, s.world, r.world);
    }
  }

  // ---------------------------------------------------------------------------------
  // Runs
  // ---------------------------------------------------------------------------------

  lemma {:induction false} RunBalanced(input: Input, s: State, body: seq<Action>, loose: set<Address>, a: Address, key: nat)
    requires RIPEMD in loose && AllWellFormed(body, loose) && AllDone(body) && Covered(input, s.world)
    requires s.world.refund + SUICIDE_REFUND * (CountAll(body) + 1) < Journal.TWO_TO_THE_64
    requires Exec(input, s, body).Ran?
    ensures Balanced(input, s, Exec(input, s, body).s, BillForAll(input, s, body, a, key), a, key)
    decreases body, 1
  {
    hide Covered, Balanced, Undoes;
    if body == [] {
      UnchangedButRefund(input, s.world, s.world);
      SameSlotsBalanced(input, s, s, a, key);
    } else {
      var s1 := ExecAction(input, s, body[0]).s;
      ActionCovered(input, s, body[0], loose);
      ActionBalanced(input, s, body[0], loose, a, key);
      RunBalanced(input, s1, body[1..], loose, a, key);
      BalancedThen(input, s, s1, Exec(input, s, body).s, BillFor(input, s, body[0], a, key),
                   BillForAll(input, s1, body[1..], a, key), a, key);
    }
  }

  lemma {:induction false} ActionBalanced(input: Input, s: State, x: Action, loose: set<Address>, a: Address, key: nat)
    requires RIPEMD in loose && ActionWellFormed(x, loose) && ActionDone(x) && Covered(input, s.world)
    requires s.world.refund + SUICIDE_REFUND * (Count(x) + 1) < Journal.TWO_TO_THE_64
    requires ExecAction(input, s, x).Ran?
    ensures Balanced(input, s, ExecAction(input, s, x).s, BillFor(input, s, x, a, key), a, key)
    decreases x, 1
  {
    hide Covered, Balanced, SStore, SameSlots, Do;
    var r := ExecAction(input, s, x).s;
    match x
    case Write(b, k, value) => WriteBalanced(input, s, b, k, value, a, key);
    case Other(op) =>
      PlainIsCalm(input, s, op, loose);
      SameSlotsBalanced(input, s, r, a, key);
    case Destroy(b, heir) =>
      DestroyKeepsSlots(input, s, b, heir);
      SameSlotsBalanced(input, s, r, a, key);
    case Deploy(b, code) =>
      DeployKeepsSlots(input, s, b, code);
      SameSlotsBalanced(input, s, r, a, key);
    case Inner(f) => RunBalanced(input, s, f.body, loose, a, key);
  }

  /** EIP-1283 over a whole transaction: what the writes to a slot are charged less the refund
      they gain is 200 for each, and an amount that only depends on the original and the final
      value, whatever else happens in between. */
  lemma SlotCost(input: Input, s: State, body: seq<Action>, loose: set<Address>, a: Address, key: nat)
    requires RIPEMD in loose && AllWellFormed(body, loose) && AllDone(body)
    requires forall b, k: nat :: Slot(input, b, At(input, s.world, b), k) == Committed(input, b, At(input, s.world, b), k)
    requires s.world.refund + SUICIDE_REFUND * (CountAll(body) + 1) < Journal.TWO_TO_THE_64
    requires Exec(input, s, body).Ran?
    ensures var bill := BillForAll(input, s, body, a, key);
            var original, last := SlotOf(input, s, a, key), SlotOf(input, Exec(input, s, body).s, a, key);
            bill.net == 200 * bill.writes + (if last == original then 0
                                             else if original == 0 then 19800
                                             else if last == 0 then -10200
                                             else 4800)
  {
    FreshIsCovered(input, s.world);
    RunBalanced(input, s, body, loose, a, key);
  }
}
