/** Whole transactions on the journaled state: whatever is done after a snapshot, with nested
    snapshots and reverts in between, `RevertToSnapshot` restores everything observable. */
module JournalRun {
  import opened Wrappers
  import opened Rlp
  import opened Journal

  /** A call on the state or on the account of an address.  `RevertTo` is `RevertToSnapshot`. */
  datatype Op =
    | Load(a: Address)
    | ReadSlot(a: Address, key: nat)
    | ReadCommitted(a: Address, key: nat)
    | ReadCode(a: Address)
    | PutSlot(a: Address, key: nat, value: int)
    | Credit(a: Address, amount: int)
    | Debit(a: Address, amount: int)
    | PutNonceOf(a: Address, nonce: nat)
    | NextNonce(a: Address)
    | PutCode(a: Address, code: Bytes)
    | PutRaw(a: Address, rawKey: Bytes, bytes: Bytes)
    | SelfDestruct(a: Address, heir: Address)
    | Log(log: Bytes)
    | GainRefund(gas: nat)
    | LoseRefund(gas: nat)
    | PutTransient(a: Address, rawKey: Bytes, bytes: Bytes)
    | RevertTo(snapshot: nat)

  /** `RevertToSnapshot`. */
  function Revert(s: State, snapshot: nat): (r: State)
    requires snapshot <= |s.reverts| && CanRollback(s.world, s.reverts[snapshot..])
  {
    State(Rollback(s.world, s.reverts[snapshot..]), s.reverts[..snapshot])
  }

  /** The hash of zeros, which transient storage holds where nothing was set. */
  const ZERO_HASH: Bytes := [0, 0, 0, 0, 0, 0, 0, 0, 0, 0, 0, 0, 0, 0, 0, 0, 0, 0, 0, 0, 0, 0, 0, 0, 0, 0, 0, 0, 0, 0, 0, 0]

  /** `GetTransientState`. */
  function Transient(w: World, a: Address, key: Bytes): (v: Bytes)
  {
    if (a, key) in w.transient then w.transient[(a, key)] else ZERO_HASH
  }

  /** `SetTransientState`; nothing is journaled. */
  function SetTransient(s: State, a: Address, key: Bytes, bytes: Bytes): (r: State)
  {
    if Transient(s.world, a, key) == bytes then s
    else s.(world := s.world.(transient := s.world.transient[(a, key) := bytes]))
  }

  /** `AddRefund`, in 64 bits. */
  function Gain(s: State, gas: nat): (r: State)
  {
    PutRefund(s, (s.world.refund + gas) % Journal.TWO_TO_THE_64)
  }

  /** `SubRefund`; None is its panic. */
  function Lose(s: State, gas: nat): (r: Option<State>)
  {
    if gas > s.world.refund then None else Some(PutRefund(s, s.world.refund - gas))
  }

  /** The effect of an operation; None where the source panics: a nonce that shrinks, a refund
      below zero, a snapshot that does not exist, a closure on a NIL account. */
  function Do(input: Input, s: State, op: Op): (r: Option<State>)
  {
    match op
    case Load(a) => Some(Fetch(input, s, a))
    case ReadSlot(a, key) => Some(SetAcct(s, a, CacheSlot(input, a, At(input, s.world, a), key)))
    case ReadCommitted(a, key) => Some(SetAcct(s, a, CacheCommitted(input, a, At(input, s.world, a), key)))
    case ReadCode(a) => Some(SetAcct(s, a, CacheCode(input, At(input, s.world, a))))
    case PutSlot(a, key, value) => Some(SetState(input, Fetch(input, s, a), a, key, value))
    case Credit(a, amount) => Some(AddBalance(Fetch(input, s, a), a, amount))
    case Debit(a, amount) => Some(SubBalance(Fetch(input, s, a), a, amount))
    case PutNonceOf(a, nonce) =>
      var s1 := Ensure(Fetch(input, s, a), a);
      if nonce < s1.world.accounts[a].body.value.rec.nonce then None else Some(PutNonce(s1, a, nonce))
    case NextNonce(a) =>
      var s1 := Ensure(Fetch(input, s, a), a);
      Some(PutNonce(s1, a, s1.world.accounts[a].body.value.rec.nonce + 1))
    case PutCode(a, code) => Some(SetCode(input, Fetch(input, s, a), a, code))
    case PutRaw(a, key, bytes) => Some(SetRaw(Fetch(input, s, a), a, key, bytes))
    case SelfDestruct(a, heir) => Some(Suicide(input, Fetch(input, s, a), a, heir))
    case Log(log) => Some(AddLog(s, log))
    case GainRefund(gas) => Some(Gain(s, gas))
    case LoseRefund(gas) => Lose(s, gas)
    case PutTransient(a, key, bytes) => Some(SetTransient(s, a, key, bytes))
    case RevertTo(n) =>
      if n <= |s.reverts| && CanRollback(s.world, s.reverts[n..]) then Some(Revert(s, n)) else None
  }

  /** What the closures presume of an operation after a snapshot at `base`: code is set once,
      raw writes only concern addresses whose counters are not compared, and reverts stay
      within the snapshot. */
  ghost predicate Fair(input: Input, s: State, op: Op, base: nat, loose: set<Address>)
  {
    (op.PutCode? && op.code != [] ==> NoCodeAt(At(input, s.world, op.a))) &&
    (op.PutRaw? ==> op.a in loose) &&
    (op.RevertTo? ==> base <= op.snapshot)
  }

  ghost predicate AllFair(input: Input, s: State, ops: seq<Op>, base: nat, loose: set<Address>)
    decreases |ops|
  {
    ops == [] ||
    (Fair(input, s, ops[0], base, loose) &&
     match Do(input, s, ops[0])
     case None => true
     case Some(s1) => AllFair(input, s1, ops[1..], base, loose))
  }

  function Perform(input: Input, s: State, ops: seq<Op>): (r: Option<State>)
    decreases |ops|
  {
    if ops == [] then Some(s)
    else
      match Do(input, s, ops[0])
      case None => None
      case Some(s1) => Perform(input, s1, ops[1..])
  }

  // ---------------------------------------------------------------------------------
  // Every operation but a revert
  // ---------------------------------------------------------------------------------

  /** On an account fetched before. */
  lemma DoOnAccount(input: Input, s: State, op: Op, base: nat, loose: set<Address>)
    requires !op.Log? && !op.GainRefund? && !op.LoseRefund? && !op.RevertTo? && !op.PutTransient? && !op.Load?
    requires !op.ReadSlot? && !op.ReadCommitted? && !op.ReadCode?
    requires RIPEMD in loose && Fair(input, s, op, base, loose) && Do(input, s, op).Some?
    ensures Undoes(input, Fetch(input, s, op.a), Do(input, s, op).value, loose)
  {
    hide Undoes, Same, SameAcct;
    var s1 := Fetch(input, s, op.a);
    match op
    case PutSlot(a, key, value) => SetStateUndoes(input, s1, a, key, value, loose);
    case Credit(a, amount) => AddBalanceUndoes(input, s1, a, amount, loose);
    case Debit(a, amount) => SubBalanceUndoes(input, s1, a, amount, loose);
    case PutNonceOf(a, nonce) => PutNonceUndoes(input, s1, a, nonce, loose);
    case NextNonce(a) => PutNonceUndoes(input, s1, a, Ensure(s1, a).world.accounts[a].body.value.rec.nonce + 1, loose);
    case PutCode(a, code) => SetCodeUndoes(input, s1, a, code, loose);
    case PutRaw(a, key, bytes) => SetRawUndoes(input, s1, a, key, bytes, loose);
    case SelfDestruct(a, heir) => SuicideUndoes(input, s1, a, heir, loose);
  }

  lemma ReadUndoes(input: Input, s: State, op: Op, loose: set<Address>)
    requires op.ReadSlot? || op.ReadCommitted? || op.ReadCode?
    ensures Do(input, s, op).Some? && Undoes(input, s, Do(input, s, op).value, loose)
  {
    var x := At(input, s.world, op.a);
    match op
    case ReadSlot(a, key) =>
      CachesAreNeutral(input, a, x, key);
      NeutralUndoes(input, s, a, CacheSlot(input, a, x, key), loose);
    case ReadCommitted(a, key) =>
      CachesAreNeutral(input, a, x, key);
      NeutralUndoes(input, s, a, CacheCommitted(input, a, x, key), loose);
    case ReadCode(a) =>
      CachesAreNeutral(input, a, x, 0);
      NeutralUndoes(input, s, a, CacheCode(input, x), loose);
  }

  lemma TransientUndoes(input: Input, s: State, a: Address, key: Bytes, bytes: Bytes, loose: set<Address>)
    ensures Undoes(input, s, SetTransient(s, a, key, bytes), loose)
  {
    var s2 := SetTransient(s, a, key, bytes);
    SameRefl(input, s.world, loose);
    SameAccounts(input, s.world, s.world, s.world, s2.world, loose);
    assert s.reverts[|s.reverts|..] == [];
  }

  /** One operation and its inverse. */
  lemma DoUndoes(input: Input, s: State, op: Op, base: nat, loose: set<Address>)
    requires !op.RevertTo? && RIPEMD in loose && Fair(input, s, op, base, loose) && Do(input, s, op).Some?
    ensures Undoes(input, s, Do(input, s, op).value, loose)
  {
    hide Undoes, Same, SameAcct, Fair;
    match op
    case Load(a) => FetchUndoes(input, s, a, loose);
    case ReadSlot(_, _) => ReadUndoes(input, s, op, loose);
    case ReadCommitted(_, _) => ReadUndoes(input, s, op, loose);
    case ReadCode(_) => ReadUndoes(input, s, op, loose);
    case Log(log) => LogUndoes(input, s, log, loose);
    case GainRefund(gas) => RefundUndoes(input, s, (s.world.refund + gas) % Journal.TWO_TO_THE_64, loose);
    case LoseRefund(gas) => RefundUndoes(input, s, s.world.refund - gas, loose);
    case PutTransient(a, key, bytes) => TransientUndoes(input, s, a, key, bytes, loose);
    case PutSlot(a, _, _) => AccountDoUndoes(input, s, op, a, base, loose);
    case Credit(a, _) => AccountDoUndoes(input, s, op, a, base, loose);
    case Debit(a, _) => AccountDoUndoes(input, s, op, a, base, loose);
    case PutNonceOf(a, _) => AccountDoUndoes(input, s, op, a, base, loose);
    case NextNonce(a) => AccountDoUndoes(input, s, op, a, base, loose);
    case PutCode(a, _) => AccountDoUndoes(input, s, op, a, base, loose);
    case PutRaw(a, _, _) => AccountDoUndoes(input, s, op, a, base, loose);
    case SelfDestruct(a, _) => AccountDoUndoes(input, s, op, a, base, loose);
    case RevertTo(_) =>
  }

  lemma AccountDoUndoes(input: Input, s: State, op: Op, a: Address, base: nat, loose: set<Address>)
    requires !op.Log? && !op.GainRefund? && !op.LoseRefund? && !op.RevertTo? && !op.PutTransient? && !op.Load?
    requires !op.ReadSlot? && !op.ReadCommitted? && !op.ReadCode? && op.a == a
    requires RIPEMD in loose && Fair(input, s, op, base, loose) && Do(input, s, op).Some?
    ensures Undoes(input, s, Do(input, s, op).value, loose)
  {
    hide Undoes, Same, SameAcct, Fair;
    FetchUndoes(input, s, a, loose);
    DoOnAccount(input, s, op, base, loose);
    UndoesThen(input, s, Fetch(input, s, a), Do(input, s, op).value, loose);
  }

  // ---------------------------------------------------------------------------------
  // Reverts
  // ---------------------------------------------------------------------------------

  /** A revert to a later snapshot never meets a NIL account, and leaves a journal that still
      leads back. */
  lemma RevertKeepsUndoing(input: Input, s0: State, s: State, snapshot: nat, loose: set<Address>)
    requires Undoes(input, s0, s, loose) && |s0.reverts| <= snapshot <= |s.reverts|
    ensures CanRollback(s.world, s.reverts[snapshot..])
    ensures Undoes(input, s0, Revert(s, snapshot), loose)
  {
    var es := s.reverts[|s0.reverts|..];
    var xs, ys := s.reverts[|s0.reverts|..snapshot], s.reverts[snapshot..];
    assert es == xs + ys;
    LaterCanRollback(s.world, xs, ys);
    RollbackAppend(s.world, xs, ys);
    assert s.reverts[..|s0.reverts|] == s0.reverts;
    assert s.reverts[..snapshot][|s0.reverts|..] == xs;
    assert s.reverts[..snapshot][..|s0.reverts|] == s0.reverts;
  }

  lemma {:induction false} LaterCanRollback(w: World, xs: seq<Undo>, ys: seq<Undo>)
    requires CanRollback(w, xs + ys)
    ensures CanRollback(w, ys)
    decreases |ys|
  {
    if ys != [] {
      var n := |ys| - 1;
      assert (xs + ys)[..|xs + ys| - 1] == xs + ys[..n];
      LaterCanRollback(UndoOne(w, ys[n]), xs, ys[..n]);
    }
  }

  /** Revert exactness.  For every sequence of operations after a snapshot that does not panic,
      with any nested snapshots and reverts, `RevertToSnapshot` runs without meeting a NIL
      account and restores every observable of every account, the log list and the refund
      counter. */
  lemma RevertRestores(input: Input, s0: State, ops: seq<Op>, loose: set<Address>)
    requires RIPEMD in loose && AllFair(input, s0, ops, |s0.reverts|, loose)
    requires Perform(input, s0, ops).Some?
    ensures var s := Perform(input, s0, ops).value;
            |s0.reverts| <= |s.reverts| && CanRollback(s.world, s.reverts[|s0.reverts|..]) &&
            Same(input, s0.world, Revert(s, |s0.reverts|).world, loose) &&
            Revert(s, |s0.reverts|).reverts == s0.reverts
  {
    FetchNothingUndoes(input, s0, loose);
    PerformUndoes(input, s0, s0, ops, loose);
  }

  lemma FetchNothingUndoes(input: Input, s: State, loose: set<Address>)
    ensures Undoes(input, s, s, loose)
  {
    SameRefl(input, s.world, loose);
    assert s.reverts[|s.reverts|..] == [];
  }

  lemma {:induction false} PerformUndoes(input: Input, s0: State, s: State, ops: seq<Op>, loose: set<Address>)
    requires RIPEMD in loose && Undoes(input, s0, s, loose)
    requires AllFair(input, s, ops, |s0.reverts|, loose) && Perform(input, s, ops).Some?
    ensures Undoes(input, s0, Perform(input, s, ops).value, loose)
    decreases |ops|
  {
    hide Undoes;
    if ops != [] {
      var s1 := Do(input, s, ops[0]).value;
      if ops[0].RevertTo? {
        RevertKeepsUndoing(input, s0, s, ops[0].snapshot, loose);
      } else {
        DoUndoes(input, s, ops[0], |s0.reverts|, loose);
        UndoesThen(input, s0, s, s1, loose);
      }
      PerformUndoes(input, s0, s1, ops[1..], loose);
    }
  }

  /** No revert within the run panics: a panic in a fair run is a shrinking nonce, a refund
      below zero or a snapshot beyond the journal. */
  lemma RevertNeverPanics(input: Input, s0: State, ops: seq<Op>, snapshot: nat, loose: set<Address>)
    requires RIPEMD in loose && AllFair(input, s0, ops, |s0.reverts|, loose)
    requires Perform(input, s0, ops).Some?
    requires |s0.reverts| <= snapshot <= |Perform(input, s0, ops).value.reverts|
    ensures Do(input, Perform(input, s0, ops).value, RevertTo(snapshot)).Some?
  {
    FetchNothingUndoes(input, s0, loose);
    PerformUndoes(input, s0, s0, ops, loose);
    RevertKeepsUndoing(input, s0, Perform(input, s0, ops).value, snapshot, loose);
  }

  // ---------------------------------------------------------------------------------
  // What is not journaled
  // ---------------------------------------------------------------------------------

  lemma {:induction false} RollbackKeepsTransient(w: World, es: seq<Undo>)
    requires CanRollback(w, es)
    ensures Rollback(w, es).transient == w.transient
    decreases |es|
  {
    if es != [] { RollbackKeepsTransient(UndoOne(w, es[|es| - 1]), es[..|es| - 1]); }
  }

  /** What the writes among `ops` leave in a slot of transient storage that held v. */
  function LastWrite(ops: seq<Op>, a: Address, key: Bytes, v: Bytes): (r: Bytes)
    decreases |ops|
  {
    if ops == [] then v
    else
      var x := ops[0];
      LastWrite(ops[1..], a, key, if x.PutTransient? && x.a == a && x.rawKey == key then x.bytes else v)
  }

  /** The same logs, refund counter and transient storage. */
  predicate SameRest(s: State, r: State)
  {
    r.world.logs == s.world.logs && r.world.refund == s.world.refund && r.world.transient == s.world.transient
  }

  lemma EnsureRest(s: State, a: Address)
    requires a in s.world.accounts
    ensures SameRest(s, Ensure(s, a))
  {
  }

  lemma SetStateRest(input: Input, s: State, a: Address, key: nat, value: int)
    requires a in s.world.accounts
    ensures SameRest(s, SetState(input, s, a, key, value))
  {
  }

  lemma AddBalanceRest(s: State, a: Address, amount: int)
    requires a in s.world.accounts
    ensures SameRest(s, AddBalance(s, a, amount))
  {
  }

  lemma SuicideRest(input: Input, s: State, a: Address, heir: Address)
    requires a in s.world.accounts
    ensures SameRest(s, Suicide(input, s, a, heir))
  {
    hide AddBalance;
    var s1 := Fetch(input, s, heir);
    var x := s1.world.accounts[a];
    AddBalanceRest(s1, heir, if x.body.None? then 0 else x.body.value.rec.balance);
  }

  /** Operations on accounts change accounts only. */
  lemma DoRest(input: Input, s: State, op: Op)
    requires !op.RevertTo? && !op.Log? && !op.GainRefund? && !op.LoseRefund? && !op.PutTransient?
    requires Do(input, s, op).Some?
    ensures SameRest(s, Do(input, s, op).value)
  {
    hide Ensure, SetState, AddBalance, Suicide, CacheSlot, CacheCommitted, CacheCode, Loaded, WithCode;
    match op
    case PutSlot(b, key, value) => SetStateRest(input, Fetch(input, s, b), b, key, value);
    case Credit(b, amount) => AddBalanceRest(Fetch(input, s, b), b, amount);
    case SelfDestruct(b, heir) => SuicideRest(input, Fetch(input, s, b), b, heir);
    case Debit(b, _) => EnsureRest(Fetch(input, s, b), b);
    case PutNonceOf(b, _) => EnsureRest(Fetch(input, s, b), b);
    case NextNonce(b) => EnsureRest(Fetch(input, s, b), b);
    case PutCode(b, _) => EnsureRest(Fetch(input, s, b), b);
    case PutRaw(b, _, _) => EnsureRest(Fetch(input, s, b), b);
    case _ =>
  }

  lemma DoTransient(input: Input, s: State, op: Op, a: Address, key: Bytes)
    requires Do(input, s, op).Some?
    ensures Transient(Do(input, s, op).value.world, a, key) ==
            if op.PutTransient? && op.a == a && op.rawKey == key then op.bytes else Transient(s.world, a, key)
  {
    hide Ensure, SetState, AddBalance, Suicide, SetCode, SetRaw, SubBalance, PutNonce, Fetch, CanRollback, Rollback;
    if op.RevertTo? {
      RollbackKeepsTransient(s.world, s.reverts[op.snapshot..]);
    } else if !op.Log? && !op.GainRefund? && !op.LoseRefund? && !op.PutTransient? {
      DoRest(input, s, op);
    }
  }

  /** Transient storage sees every write of a run and no revert. */
  lemma {:induction false} PerformTransient(input: Input, s: State, ops: seq<Op>, a: Address, key: Bytes)
    requires Perform(input, s, ops).Some?
    ensures Transient(Perform(input, s, ops).value.world, a, key) == LastWrite(ops, a, key, Transient(s.world, a, key))
    decreases |ops|
  {
    if ops != [] {
      DoTransient(input, s, ops[0], a, key);
      PerformTransient(input, Do(input, s, ops[0]).value, ops[1..], a, key);
    }
  }

  /** Against its comment, `SetTransientState` is not undone: after a run and a revert a slot is
      as it was if and only if the last write of the run, if any, wrote just that. */
  lemma TransientRestoredIff(input: Input, s0: State, ops: seq<Op>, loose: set<Address>, a: Address, key: Bytes)
    requires RIPEMD in loose && AllFair(input, s0, ops, |s0.reverts|, loose) && Perform(input, s0, ops).Some?
    ensures var s := Perform(input, s0, ops).value;
            |s0.reverts| <= |s.reverts| && CanRollback(s.world, s.reverts[|s0.reverts|..]) &&
            (Transient(Revert(s, |s0.reverts|).world, a, key) == Transient(s0.world, a, key)
             <==> LastWrite(ops, a, key, Transient(s0.world, a, key)) == Transient(s0.world, a, key))
  {
    var s := Perform(input, s0, ops).value;
    RevertRestores(input, s0, ops, loose);
    RollbackKeepsTransient(s.world, s.reverts[|s0.reverts|..]);
    PerformTransient(input, s0, ops, a, key);
  }

  /** One write and a revert, on a slot that holds zero. */
  lemma TransientLeaks(input: Input)
    ensures var s0 := State(World(map[], [], 0, map[]), []);
            var s := Perform(input, s0, [PutTransient(RIPEMD, [1], [1])]);
            s.Some? && CanRollback(s.value.world, s.value.reverts[0..]) &&
            Transient(s0.world, RIPEMD, [1]) == ZERO_HASH &&
            Transient(Revert(s.value, 0).world, RIPEMD, [1]) == [1]
  {
    var s0 := State(World(map[], [], 0, map[]), []);
    var ops := [PutTransient(RIPEMD, [1], [1])];
    assert Do(input, s0, ops[0]) == Some(SetTransient(s0, RIPEMD, [1], [1]));
    assert ops[1..] == [];
  }

  /** After the touch of an existing empty account is undone, the modification counter is back
      exactly when the account is not the ripemd one. */
  lemma TouchUndoneIff(input: Input, s: State, a: Address)
    requires a in s.world.accounts && s.world.accounts[a].body.Some? && Empty(s.world.accounts[a])
    ensures var s2 := AddBalance(s, a, 0);
            |s2.reverts| == |s.reverts| + 1 && CanUndo(s2.world, s2.reverts[|s.reverts|]) &&
            var back := UndoOne(s2.world, s2.reverts[|s.reverts|]);
            back.accounts[a].body.Some? &&
            (back.accounts[a].body.value.mods == s.world.accounts[a].body.value.mods <==> a != RIPEMD)
  {
  }
}
