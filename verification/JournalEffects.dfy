/** What callers of ebla/state/state_evm read after each operation, in terms of what they read
    before, and what becomes of raw storage, which no closure takes back. */
module JournalEffects {
  import opened Wrappers
  import opened Rlp
  import opened Journal
  import opened JournalRun
  import NetMetering

  /** The readers of `Account` other than those of storage. */
  datatype Seen = Seen(present: bool, nonce: nat, balance: int, code: Bytes, suicided: bool)

  function SeenIn(input: Input, x: Acct): (r: Seen)
  {
    match x.body
    case None => Seen(false, 0, 0, [], false)
    case Some(b) => Seen(true, b.rec.nonce, b.rec.balance, CodeOf(input, x), b.suicided)
  }

  function SeenAt(input: Input, s: State, a: Address): (r: Seen)
  {
    SeenIn(input, At(input, s.world, a))
  }

  /** What is read of `a` after an operation, given what was read of the accounts before. */
  function SeenAfter(op: Op, seen: Address -> Seen, a: Address): (r: Seen)
  {
    var x := seen(a);
    match op
    case PutSlot(b, _, _) => if a == b then x.(present := true) else x
    case PutRaw(b, _, _) => if a == b then x.(present := true) else x
    case Credit(b, amount) => if a == b then x.(present := true, balance := x.balance + amount) else x
    case Debit(b, amount) => if a == b then x.(present := true, balance := x.balance - amount) else x
    case PutNonceOf(b, nonce) => if a == b then x.(present := true, nonce := nonce) else x
    case NextNonce(b) => if a == b then x.(present := true, nonce := x.nonce + 1) else x
    case PutCode(b, code) => if a == b then x.(present := true, code := if code == [] then x.code else code) else x
    case SelfDestruct(b, heir) =>
      if !seen(b).present then if a == heir then x.(present := true) else x
      else if a == b then x.(balance := 0, suicided := true)
      else if a == heir then x.(present := true, balance := x.balance + seen(b).balance)
      else x
    case _ => x
  }

  /** An account that is not there reads as an empty one: creating it shows in nothing else. */
  lemma EnsureSeen(input: Input, s: State, a: Address, b: Address)
    requires a in s.world.accounts
    ensures SeenAt(input, Ensure(s, a), b) == if b == a then SeenAt(input, s, a).(present := true) else SeenAt(input, s, b)
    ensures SameStorage(input, b, At(input, s.world, b), At(input, Ensure(s, a).world, b))
  {
  }

  lemma FetchSeen(input: Input, s: State, a: Address, b: Address)
    ensures At(input, Fetch(input, s, a).world, b) == At(input, s.world, b)
  {
  }

  lemma AddBalanceSeen(input: Input, s: State, a: Address, amount: int, b: Address)
    requires a in s.world.accounts
    ensures SeenAt(input, AddBalance(s, a, amount), b) ==
            if b == a then SeenAt(input, s, a).(present := true, balance := SeenAt(input, s, a).balance + amount)
            else SeenAt(input, s, b)
    ensures SameStorage(input, b, At(input, s.world, b), At(input, AddBalance(s, a, amount).world, b))
  {
    hide Ensure, Loaded;
    EnsureSeen(input, s, a, b);
    EnsureSeen(input, s, a, a);
  }

  lemma DieSeen(input: Input, s: State, a: Address, b: Address)
    requires a in s.world.accounts && s.world.accounts[a].body.Some?
    ensures SeenAt(input, Die(s, a), b) ==
            if b == a then SeenAt(input, s, a).(balance := 0, suicided := true) else SeenAt(input, s, b)
    ensures SameStorage(input, b, At(input, s.world, b), At(input, Die(s, a).world, b))
  {
  }

  lemma SuicideSeen(input: Input, s: State, a: Address, heir: Address, b: Address)
    requires a in s.world.accounts
    ensures SeenAt(input, Suicide(input, s, a, heir), b) ==
            SeenAfter(SelfDestruct(a, heir), c => SeenAt(input, s, c), b)
    ensures SameStorage(input, b, At(input, s.world, b), At(input, Suicide(input, s, a, heir).world, b))
  {
    var s1 := Fetch(input, s, heir);
    FetchSeen(input, s, heir, a);
    FetchSeen(input, s, heir, b);
    FetchSeen(input, s, heir, heir);
    var x := s1.world.accounts[a];
    var amount := if x.body.None? then 0 else x.body.value.rec.balance;
    hide AddBalance, Slot, Committed;
    AddBalanceSeen(input, s1, heir, amount, a);
    AddBalanceSeen(input, s1, heir, amount, b);
    if x.body.Some? {
      var s2 := AddBalance(s1, heir, amount);
      ExistsStill(s1, heir, amount, a);
      DieSeen(input, s2, a, b);
      NetMetering.StorageThen(input, b, At(input, s.world, b), At(input, s2.world, b), At(input, Die(s2, a).world, b));
    }
  }

  lemma SetStateSeen(input: Input, s: State, a: Address, key: nat, value: int, b: Address)
    requires a in s.world.accounts
    ensures SeenAt(input, SetState(input, s, a, key, value), b) ==
            if b == a then SeenAt(input, s, a).(present := true) else SeenAt(input, s, b)
  {
    EnsureSeen(input, s, a, b);
    CachesAreNeutral(input, a, Ensure(s, a).world.accounts[a], key);
  }

  lemma SetCodeSeen(input: Input, s: State, a: Address, code: Bytes, b: Address)
    requires a in s.world.accounts
    ensures SeenAt(input, SetCode(input, s, a, code), b) ==
            if b == a then SeenAt(input, s, a).(present := true, code := if code == [] then SeenAt(input, s, a).code else code)
            else SeenAt(input, s, b)
    ensures code != [] ==> CodeHashOf(At(input, SetCode(input, s, a, code).world, a)) == Some(input.keccak(code))
    ensures SameStorage(input, b, At(input, s.world, b), At(input, SetCode(input, s, a, code).world, b))
  {
    EnsureSeen(input, s, a, b);
  }

  /** Every operation but a revert changes what callers read as it promises, and nothing else. */
  lemma DoSeen(input: Input, s: State, op: Op, a: Address)
    requires !op.RevertTo? && Do(input, s, op).Some?
    ensures SeenAt(input, Do(input, s, op).value, a) == SeenAfter(op, b => SeenAt(input, s, b), a)
  {
    hide SetState, AddBalance, SetCode, Suicide, SubBalance, PutNonce, SetRaw, Ensure, Loaded, Slot, Committed, CacheSlot, CacheCommitted, CacheCode;
    match op
    case Load(b) => FetchSeen(input, s, b, a);
    case ReadSlot(b, key) => CachesAreNeutral(input, b, At(input, s.world, b), key);
    case ReadCommitted(b, key) => CachesAreNeutral(input, b, At(input, s.world, b), key);
    case ReadCode(b) => CachesAreNeutral(input, b, At(input, s.world, b), 0);
    case PutSlot(b, key, value) =>
      FetchSeen(input, s, b, a);
      SetStateSeen(input, Fetch(input, s, b), b, key, value, a);
    case Credit(b, amount) =>
      FetchSeen(input, s, b, a);
      AddBalanceSeen(input, Fetch(input, s, b), b, amount, a);
    case Debit(b, _) => DoEnsuredSeen(input, s, op, b, a);
    case PutNonceOf(b, _) => DoEnsuredSeen(input, s, op, b, a);
    case NextNonce(b) => DoEnsuredSeen(input, s, op, b, a);
    case PutRaw(b, _, _) => DoEnsuredSeen(input, s, op, b, a);
    case PutCode(b, code) =>
      FetchSeen(input, s, b, a);
      SetCodeSeen(input, Fetch(input, s, b), b, code, a);
    case SelfDestruct(b, heir) => SelfDestructSeen(input, s, b, heir, a);
    case _ =>
  }

  lemma DoEnsuredSeen(input: Input, s: State, op: Op, b: Address, a: Address)
    requires (op.Debit? || op.PutNonceOf? || op.NextNonce? || op.PutRaw?) && op.a == b && Do(input, s, op).Some?
    ensures SeenAt(input, Do(input, s, op).value, a) == SeenAfter(op, c => SeenAt(input, s, c), a)
  {
    hide Ensure, Loaded, Slot, Committed;
    FetchSeen(input, s, b, a);
    EnsureSeen(input, Fetch(input, s, b), b, a);
  }

  lemma SelfDestructSeen(input: Input, s: State, a: Address, heir: Address, b: Address)
    ensures SeenAt(input, Suicide(input, Fetch(input, s, a), a, heir), b) ==
            SeenAfter(SelfDestruct(a, heir), c => SeenAt(input, s, c), b)
  {
    FetchSeen(input, s, a, b);
    FetchSeen(input, s, a, a);
    FetchSeen(input, s, a, heir);
    SuicideSeen(input, Fetch(input, s, a), a, heir, b);
  }

  /** Only SetState changes a slot, and only its own; no operation changes a committed value. */
  lemma DoSlots(input: Input, s: State, op: Op, a: Address, key: nat)
    requires !op.RevertTo? && Do(input, s, op).Some?
    ensures var r := Do(input, s, op).value;
            Slot(input, a, At(input, r.world, a), key) ==
            (if op.PutSlot? && op.a == a && op.key == key then op.value else Slot(input, a, At(input, s.world, a), key)) &&
            Committed(input, a, At(input, r.world, a), key) == Committed(input, a, At(input, s.world, a), key)
  {
    hide SetState, SetCode, AddBalance, Suicide, Ensure, Loaded;
    match op
    case PutSlot(b, slot, value) =>
      NetMetering.SetStateEffect(input, Fetch(input, s, b), b, slot, value);
      FetchSeen(input, s, b, a);
    case PutCode(b, code) =>
      FetchSeen(input, s, b, a);
      SetCodeSeen(input, Fetch(input, s, b), b, code, a);
    case GainRefund(_) =>
    case LoseRefund(_) =>
    case PutRaw(b, _, _) => NetMetering.PlainIsCalm(input, s, op, {b});
    case _ => NetMetering.PlainIsCalm(input, s, op, {});
  }

  /** Logs are appended, and the refund counter moves by what was asked for. */
  lemma DoCounters(input: Input, s: State, op: Op)
    requires !op.RevertTo? && Do(input, s, op).Some?
    ensures var r := Do(input, s, op).value.world;
            r.logs == (if op.Log? then s.world.logs + [op.log] else s.world.logs) &&
            (op.GainRefund? && s.world.refund + op.gas < Journal.TWO_TO_THE_64 ==> r.refund == s.world.refund + op.gas) &&
            (op.LoseRefund? ==> r.refund == s.world.refund - op.gas) &&
            (!op.GainRefund? && !op.LoseRefund? ==> r.refund == s.world.refund)
  {
    hide Ensure, SetState, AddBalance, Suicide, SetCode, SetRaw, SubBalance, PutNonce, Fetch;
    if !op.Log? && !op.GainRefund? && !op.LoseRefund? && !op.PutTransient? { DoRest(input, s, op); }
  }

  // =================================================================================
  // Raw storage (`SetStateRawIrreversibly` of ebla/state/state_evm/account.go) under reverts: no
  // closure takes a write back, but an account that was created after the snapshot goes, and its
  // raw writes with it.
  // =================================================================================

  /** The pending raw write of an account under a key. */
  function Raw(x: Acct, key: Bytes): (v: Option<Bytes>)
  {
    if x.body.None? || key !in x.body.value.rawDirty then None else Some(x.body.value.rawDirty[key])
  }

  function RawAt(input: Input, s: State, a: Address, key: Bytes): (v: Option<Bytes>)
  {
    Raw(At(input, s.world, a), key)
  }

  predicate Exists(input: Input, s: State, a: Address)
  {
    At(input, s.world, a).body.Some?
  }

  /** What the writes among `ops` leave under a raw key that held v. */
  function LastRaw(ops: seq<Op>, a: Address, key: Bytes, v: Option<Bytes>): (r: Option<Bytes>)
    decreases |ops|
  {
    if ops == [] then v
    else
      var x := ops[0];
      LastRaw(ops[1..], a, key, if x.PutRaw? && x.a == a && x.rawKey == key then Some(x.bytes) else v)
  }

  /** The closures from `base` on do not take the existence of `a` back. */
  predicate Keeps(es: seq<Undo>, base: nat, a: Address)
  {
    base <= |es| && forall i :: base <= i < |es| ==> !(es[i].Absent? && es[i].who == a)
  }

  /** r is s with more closures, none of which takes `a` away. */
  predicate Grows(s: State, r: State, a: Address)
  {
    s.reverts <= r.reverts && Keeps(r.reverts, |s.reverts|, a)
  }

  // ---------------------------------------------------------------------------------
  // One operation
  // ---------------------------------------------------------------------------------

  /** The account is still there, with the same raw writes. */
  ghost predicate SameRaw(input: Input, s: State, r: State, a: Address)
  {
    (Exists(input, s, a) ==> Exists(input, r, a) && Grows(s, r, a)) &&
    forall key :: RawAt(input, r, a, key) == RawAt(input, s, a, key)
  }

  lemma SameRawThen(input: Input, s: State, s1: State, r: State, a: Address)
    requires SameRaw(input, s, s1, a) && SameRaw(input, s1, r, a)
    ensures SameRaw(input, s, r, a)
  {
    forall key ensures RawAt(input, r, a, key) == RawAt(input, s, a, key) {
      assert RawAt(input, r, a, key) == RawAt(input, s1, a, key);
    }
  }

  lemma FetchRaw(input: Input, s: State, b: Address, a: Address)
    ensures SameRaw(input, s, Fetch(input, s, b), a)
  {
  }

  lemma EnsureRaw(input: Input, s: State, b: Address, a: Address)
    requires b in s.world.accounts
    ensures SameRaw(input, s, Ensure(s, b), a)
  {
  }

  /** A change of a body that leaves raw storage alone. */
  lemma ChangeRaw(input: Input, s: State, b: Address, body: Body, e: Undo, a: Address)
    requires b in s.world.accounts && s.world.accounts[b].body.Some? && !e.Absent?
    requires body.rawDirty == s.world.accounts[b].body.value.rawDirty
    ensures SameRaw(input, s, Change(s, b, body, e), a)
  {
  }

  lemma SetAcctRaw(input: Input, s: State, b: Address, x: Acct, a: Address)
    requires x.body.Some? <==> Exists(input, s, b)
    requires x.body.Some? ==> x.body.value.rawDirty == At(input, s.world, b).body.value.rawDirty
    ensures SameRaw(input, s, SetAcct(s, b, x), a)
  {
  }

  lemma SetStateRaw(input: Input, s: State, b: Address, slot: nat, value: int, a: Address)
    requires b in s.world.accounts
    ensures SameRaw(input, s, SetState(input, s, b, slot, value), a)
  {
    hide SameRaw;
    var s1 := Ensure(s, b);
    var y := CacheSlot(input, b, s1.world.accounts[b], slot);
    var s2 := SetAcct(s1, b, y);
    var r := SetState(input, s, b, slot, value);
    EnsureRaw(input, s, b, a);
    SetAcctRaw(input, s1, b, y, a);
    SameRawThen(input, s, s1, s2, a);
    if r != s2 {
      var c := y.body.value;
      ChangeRaw(input, s2, b, c.(storageDirty := c.storageDirty[slot := value]),
                StorageWas(b, slot, Slot(input, b, s1.world.accounts[b], slot)), a);
      SameRawThen(input, s, s2, r, a);
    }
  }

  lemma SetBalanceRaw(input: Input, s: State, b: Address, balance: int, a: Address)
    requires b in s.world.accounts && s.world.accounts[b].body.Some?
    ensures SameRaw(input, s, SetBalance(s, b, balance), a)
  {
    var c := s.world.accounts[b].body.value;
    ChangeRaw(input, s, b, c.(rec := c.rec.(balance := balance)), BalanceWas(b, c.rec.balance), a);
  }

  lemma TouchRaw(input: Input, s: State, b: Address, a: Address)
    requires b in s.world.accounts && s.world.accounts[b].body.Some?
    ensures SameRaw(input, s, Touch(s, b), a)
  {
    hide SameRaw;
    var c := s.world.accounts[b].body.value;
    var s1 := Change(s, b, c.(touched := Inc(c.touched)), Untouched(b));
    ChangeRaw(input, s, b, c.(touched := Inc(c.touched)), Untouched(b), a);
    if b == RIPEMD {
      var d := s1.world.accounts[b].body.value;
      SetAcctRaw(input, s1, b, s1.world.accounts[b].(body := Some(d.(mods := Inc(d.mods)))), a);
      SameRawThen(input, s, s1, Touch(s, b), a);
    }
  }

  lemma AddBalanceRaw(input: Input, s: State, b: Address, amount: int, a: Address)
    requires b in s.world.accounts
    ensures SameRaw(input, s, AddBalance(s, b, amount), a)
  {
    hide SameRaw, Touch, SetBalance;
    var s1 := Ensure(s, b);
    var r := AddBalance(s, b, amount);
    EnsureRaw(input, s, b, a);
    if amount != 0 {
      SetBalanceRaw(input, s1, b, s1.world.accounts[b].body.value.rec.balance + amount, a);
      SameRawThen(input, s, s1, r, a);
    } else if Empty(s1.world.accounts[b]) {
      TouchRaw(input, s1, b, a);
      SameRawThen(input, s, s1, r, a);
    }
  }

  lemma SuicideRaw(input: Input, s: State, b: Address, heir: Address, a: Address)
    requires b in s.world.accounts
    ensures SameRaw(input, s, Suicide(input, s, b, heir), a)
  {
    hide SameRaw, AddBalance;
    var s1 := Fetch(input, s, heir);
    FetchRaw(input, s, heir, a);
    var x := s1.world.accounts[b];
    var amount := if x.body.None? then 0 else x.body.value.rec.balance;
    var s2 := AddBalance(s1, heir, amount);
    AddBalanceRaw(input, s1, heir, amount, a);
    SameRawThen(input, s, s1, s2, a);
    if x.body.Some? {
      ExistsStill(s1, heir, amount, b);
      var c := s2.world.accounts[b].body.value;
      ChangeRaw(input, s2, b, c.(suicided := true, rec := c.rec.(balance := 0)), AliveWas(b, c.suicided, c.rec.balance), a);
      SameRawThen(input, s, s2, Die(s2, b), a);
    }
  }

  /** A change of an account that is brought into existence first. */
  lemma EnsuredChangeRaw(input: Input, s: State, b: Address, body: Body, e: Undo, a: Address)
    requires b in s.world.accounts && !e.Absent?
    requires body.rawDirty == Ensure(s, b).world.accounts[b].body.value.rawDirty
    ensures SameRaw(input, s, Change(Ensure(s, b), b, body, e), a)
  {
    hide SameRaw, Change;
    EnsureRaw(input, s, b, a);
    ChangeRaw(input, Ensure(s, b), b, body, e, a);
    SameRawThen(input, s, Ensure(s, b), Change(Ensure(s, b), b, body, e), a);
  }

  /** An operation on an account fetched before. */
  lemma DoFetchedRaw(input: Input, s: State, op: Op, a: Address)
    requires op.Debit? || op.PutNonceOf? || op.NextNonce? || op.PutCode?
    requires Do(input, s, op).Some?
    ensures SameRaw(input, Fetch(input, s, op.a), Do(input, s, op).value, a)
  {
    hide SameRaw, Change;
    var s1 := Fetch(input, s, op.a);
    var b := Ensure(s1, op.a).world.accounts[op.a].body.value;
    EnsureRaw(input, s1, op.a, a);
    match op
    case Debit(_, amount) =>
      EnsuredChangeRaw(input, s1, op.a, b.(rec := b.rec.(balance := b.rec.balance - amount)), BalanceWas(op.a, b.rec.balance), a);
    case PutNonceOf(_, nonce) =>
      EnsuredChangeRaw(input, s1, op.a, b.(rec := b.rec.(nonce := nonce)), NonceWas(op.a, b.rec.nonce), a);
    case NextNonce(_) =>
      EnsuredChangeRaw(input, s1, op.a, b.(rec := b.rec.(nonce := b.rec.nonce + 1)), NonceWas(op.a, b.rec.nonce), a);
    case PutCode(_, code) => EnsuredChangeRaw(input, s1, op.a, WithCode(input, b, code), NoCode(op.a), a);
  }

  /** Every operation but a raw write and a revert leaves raw storage alone. */
  lemma DoSameRaw(input: Input, s: State, op: Op, a: Address)
    requires !op.RevertTo? && !op.PutRaw? && Do(input, s, op).Some?
    ensures SameRaw(input, s, Do(input, s, op).value, a)
  {
    hide SameRaw, SetState, AddBalance, Suicide, SubBalance, SetCode, PutNonce, Ensure, Loaded, Slot, SetRaw, CanRollback, Rollback, Transient;
    var r := Do(input, s, op).value;
    match op
    case Load(b) => FetchRaw(input, s, b, a);
    case ReadSlot(b, slot) => SetAcctRaw(input, s, b, CacheSlot(input, b, At(input, s.world, b), slot), a);
    case ReadCommitted(b, slot) => SetAcctRaw(input, s, b, CacheCommitted(input, b, At(input, s.world, b), slot), a);
    case ReadCode(b) => SetAcctRaw(input, s, b, CacheCode(input, At(input, s.world, b)), a);
    case PutSlot(b, slot, value) =>
      FetchRaw(input, s, b, a);
      SetStateRaw(input, Fetch(input, s, b), b, slot, value, a);
      SameRawThen(input, s, Fetch(input, s, b), r, a);
    case Credit(b, amount) =>
      FetchRaw(input, s, b, a);
      AddBalanceRaw(input, Fetch(input, s, b), b, amount, a);
      SameRawThen(input, s, Fetch(input, s, b), r, a);
    case SelfDestruct(b, heir) =>
      FetchRaw(input, s, b, a);
      SuicideRaw(input, Fetch(input, s, b), b, heir, a);
      SameRawThen(input, s, Fetch(input, s, b), r, a);
    case Debit(b, _) => DoFetched(input, s, op, b, a);
    case PutNonceOf(b, _) => DoFetched(input, s, op, b, a);
    case NextNonce(b) => DoFetched(input, s, op, b, a);
    case PutCode(b, _) => DoFetched(input, s, op, b, a);
    case Log(_) => NoAccountRaw(input, s, r, a);
    case GainRefund(_) => NoAccountRaw(input, s, r, a);
    case LoseRefund(_) => NoAccountRaw(input, s, r, a);
    case PutTransient(_, _, _) => NoAccountRaw(input, s, r, a);
  }

  lemma DoFetched(input: Input, s: State, op: Op, b: Address, a: Address)
    requires (op.Debit? || op.PutNonceOf? || op.NextNonce? || op.PutCode?) && op.a == b
    requires Do(input, s, op).Some?
    ensures SameRaw(input, s, Do(input, s, op).value, a)
  {
    hide SameRaw;
    FetchRaw(input, s, b, a);
    DoFetchedRaw(input, s, op, a);
    SameRawThen(input, s, Fetch(input, s, b), Do(input, s, op).value, a);
  }

  lemma NoAccountRaw(input: Input, s: State, r: State, a: Address)
    requires r.world.accounts == s.world.accounts && s.reverts <= r.reverts
    requires forall i :: |s.reverts| <= i < |r.reverts| ==> !r.reverts[i].Absent?
    ensures SameRaw(input, s, r, a)
  {
  }

  /** A raw write, on an account that is there or not. */
  lemma PutRawRaw(input: Input, s: State, b: Address, rawKey: Bytes, bytes: Bytes, a: Address, key: Bytes)
    ensures var r := SetRaw(Fetch(input, s, b), b, rawKey, bytes);
            (Exists(input, s, a) ==> Exists(input, r, a) && Grows(s, r, a)) &&
            RawAt(input, r, a, key) == if b == a && rawKey == key then Some(bytes) else RawAt(input, s, a, key)
  {
  }

  // ---------------------------------------------------------------------------------
  // Runs and reverts
  // ---------------------------------------------------------------------------------

  /** Rolling back closures that do not take the account away leaves its raw storage. */
  lemma {:induction false} RollbackKeepsRaw(input: Input, w: World, es: seq<Undo>, a: Address)
    requires CanRollback(w, es) && Keeps(es, 0, a) && At(input, w, a).body.Some?
    ensures var x := At(input, Rollback(w, es), a);
            x.body.Some? && x.body.value.rawDirty == At(input, w, a).body.value.rawDirty
    decreases |es|
  {
    if es != [] {
      var e := es[|es| - 1];
      UndoKeepsRaw(input, w, e, a);
      RollbackKeepsRaw(input, UndoOne(w, e), es[..|es| - 1], a);
    }
  }

  lemma UndoKeepsRaw(input: Input, w: World, e: Undo, a: Address)
    requires CanUndo(w, e) && !(e.Absent? && e.who == a) && At(input, w, a).body.Some?
    ensures var x := At(input, UndoOne(w, e), a);
            x.body.Some? && x.body.value.rawDirty == At(input, w, a).body.value.rawDirty
  {
  }

  /** One operation of a fair run, reverts included. */
  lemma DoRaw(input: Input, s: State, op: Op, base: nat, loose: set<Address>, a: Address, key: Bytes)
    requires Fair(input, s, op, base, loose) && Do(input, s, op).Some?
    requires Exists(input, s, a) && Keeps(s.reverts, base, a)
    ensures var r := Do(input, s, op).value;
            Exists(input, r, a) && Keeps(r.reverts, base, a) &&
            RawAt(input, r, a, key) ==
            if op.PutRaw? && op.a == a && op.rawKey == key then Some(op.bytes) else RawAt(input, s, a, key)
  {
    hide CanRollback, Rollback, SetRaw, Fetch;
    if op.RevertTo? {
      RollbackKeepsRaw(input, s.world, s.reverts[op.snapshot..], a);
    } else if op.PutRaw? {
      PutRawRaw(input, s, op.a, op.rawKey, op.bytes, a, key);
      StillKeeps(s, Do(input, s, op).value, base, a);
    } else {
      DoSameRaw(input, s, op, a);
      StillKeeps(s, Do(input, s, op).value, base, a);
    }
  }

  lemma StillKeeps(s: State, r: State, base: nat, a: Address)
    requires Keeps(s.reverts, base, a) && Grows(s, r, a)
    ensures Keeps(r.reverts, base, a)
  {
  }

  lemma {:induction false} PerformRaw(input: Input, s: State, ops: seq<Op>, base: nat, loose: set<Address>, a: Address, key: Bytes)
    requires AllFair(input, s, ops, base, loose) && Perform(input, s, ops).Some?
    requires Exists(input, s, a) && Keeps(s.reverts, base, a)
    ensures var r := Perform(input, s, ops).value;
            Exists(input, r, a) && Keeps(r.reverts, base, a) &&
            RawAt(input, r, a, key) == LastRaw(ops, a, key, RawAt(input, s, a, key))
    decreases |ops|
  {
    hide Do, Fair, RawAt, Exists, Keeps;
    if ops != [] {
      DoRaw(input, s, ops[0], base, loose, a, key);
      PerformRaw(input, Do(input, s, ops[0]).value, ops[1..], base, loose, a, key);
    }
  }

  /** After a fair run and a revert: the raw writes of an account that was there at the snapshot
      are all kept; an account that was not is gone, and its raw writes with it. */
  lemma RawAfterRevert(input: Input, s0: State, ops: seq<Op>, loose: set<Address>, a: Address, key: Bytes)
    requires RIPEMD in loose && AllFair(input, s0, ops, |s0.reverts|, loose) && Perform(input, s0, ops).Some?
    ensures var s := Perform(input, s0, ops).value;
            |s0.reverts| <= |s.reverts| && CanRollback(s.world, s.reverts[|s0.reverts|..]) &&
            var back := Revert(s, |s0.reverts|);
            (Exists(input, back, a) <==> Exists(input, s0, a)) &&
            RawAt(input, back, a, key) ==
            if Exists(input, s0, a) then LastRaw(ops, a, key, RawAt(input, s0, a, key)) else None
  {
    hide Perform, AllFair, CanRollback, Rollback;
    var s := Perform(input, s0, ops).value;
    RevertRestores(input, s0, ops, loose);
    var back := Revert(s, |s0.reverts|);
    assert SameAcct(input, a, At(input, s0.world, a), At(input, back.world, a), a in loose);
    if Exists(input, s0, a) {
      PerformRaw(input, s0, ops, |s0.reverts|, loose, a, key);
      RollbackKeepsRaw(input, s.world, s.reverts[|s0.reverts|..], a);
    }
  }

  /** A run that writes a raw key and is reverted leaves its last write there if and only if the
      account was there at the snapshot. */
  lemma RawWriteStaysIff(input: Input, s0: State, ops: seq<Op>, loose: set<Address>, a: Address, key: Bytes)
    requires RIPEMD in loose && AllFair(input, s0, ops, |s0.reverts|, loose) && Perform(input, s0, ops).Some?
    requires LastRaw(ops, a, key, None).Some?
    ensures var s := Perform(input, s0, ops).value;
            |s0.reverts| <= |s.reverts| && CanRollback(s.world, s.reverts[|s0.reverts|..]) &&
            (RawAt(input, Revert(s, |s0.reverts|), a, key) == LastRaw(ops, a, key, None) <==> Exists(input, s0, a))
  {
    RawAfterRevert(input, s0, ops, loose, a, key);
    WrittenAnyway(ops, a, key, None, RawAt(input, s0, a, key));
  }

  /** What was there before a run that writes does not matter. */
  lemma {:induction false} WrittenAnyway(ops: seq<Op>, a: Address, key: Bytes, v: Option<Bytes>, w: Option<Bytes>)
    requires v == None && LastRaw(ops, a, key, v).Some?
    ensures LastRaw(ops, a, key, w) == LastRaw(ops, a, key, v)
    decreases |ops|
  {
    if ops != [] {
      var x := ops[0];
      if !(x.PutRaw? && x.a == a && x.rawKey == key) { WrittenAnyway(ops[1..], a, key, v, w); }
    }
  }

  /** A raw key reads as before after a run and a revert if and only if the account was not there,
      or the last write of the run, if any, wrote just what was there. */
  lemma RawRestoredIff(input: Input, s0: State, ops: seq<Op>, loose: set<Address>, a: Address, key: Bytes)
    requires RIPEMD in loose && AllFair(input, s0, ops, |s0.reverts|, loose) && Perform(input, s0, ops).Some?
    ensures var s, before := Perform(input, s0, ops).value, RawAt(input, s0, a, key);
            |s0.reverts| <= |s.reverts| && CanRollback(s.world, s.reverts[|s0.reverts|..]) &&
            (RawAt(input, Revert(s, |s0.reverts|), a, key) == before
             <==> !Exists(input, s0, a) || LastRaw(ops, a, key, before) == before)
  {
    RawAfterRevert(input, s0, ops, loose, a, key);
  }

  /** One write to an account that is there, and a revert: the write and its count stay. */
  lemma RawWriteCounted(input: Input, s: State, a: Address, key: Bytes, value: Bytes)
    requires Exists(input, s, a)
    ensures var s1 := SetRaw(Fetch(input, s, a), a, key, value);
            s1.reverts == s.reverts && s1.reverts[|s.reverts|..] == [] &&
            var back := Revert(s1, |s.reverts|);
            RawAt(input, back, a, key) == Some(value) && Exists(input, back, a) &&
            At(input, back.world, a).body.value.mods == Inc(At(input, s.world, a).body.value.mods)
  {
  }

  /** One write to an account that nobody has seen, and a revert: nothing is left. */
  lemma RawWriteLost(a: Address, key: Bytes, value: Bytes)
    ensures var input := Input(_ => None, (_, _) => 0, _ => [], _ => []);
            var s0 := State(World(map[], [], 0, map[]), []);
            var s := Perform(input, s0, [PutRaw(a, key, value)]);
            s.Some? && RawAt(input, s.value, a, key) == Some(value) && CanRollback(s.value.world, s.value.reverts[0..]) &&
            !Exists(input, Revert(s.value, 0), a) && RawAt(input, Revert(s.value, 0), a, key) == None
  {
    var input := Input(_ => None, (_, _) => 0, _ => [], _ => []);
    var s0 := State(World(map[], [], 0, map[]), []);
    var ops := [PutRaw(a, key, value)];
    assert Do(input, s0, ops[0]) == Some(SetRaw(Fetch(input, s0, a), a, key, value));
    assert ops[1..] == [];
    var s := SetRaw(Fetch(input, s0, a), a, key, value);
    assert Perform(input, s0, ops) == Some(s);
    var es := s.reverts[0..];
    assert es == [Absent(a, false)] && es[..0] == [];
    assert Rollback(s.world, es) == UndoOne(s.world, Absent(a, false));
  }
}
