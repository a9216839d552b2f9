/** The journaled state of ebla/state/state_evm as values: accounts, the undo log, and what a
    revert restores.  The objects that carry it are in `StateObjects`. */
module Journal {
  import opened Wrappers
  import opened Rlp

  type Address = Bytes
  type CodeHash = Bytes

  /** Counters of 32 bits, with wrap-around. */
  type U32 = n: int | 0 <= n < 0x1_0000_0000

  function Inc(n: U32): (r: U32) { if n == 0xFFFF_FFFF then 0 else n + 1 }
  function Dec(n: U32): (r: U32) { if n == 0 then 0xFFFF_FFFF else n - 1 }

  const TWO_TO_THE_64: nat := 0x1_0000_0000_0000_0000

  /** The address whose touches leave a trace that is never undone. */
  const RIPEMD: Address := [0, 0, 0, 0, 0, 0, 0, 0, 0, 0, 0, 0, 0, 0, 0, 0, 0, 0, 0, 3]

  // ---------------------------------------------------------------------------------
  // Data
  // ---------------------------------------------------------------------------------

  /** `state_db.Account`. */
  datatype Record = Record(nonce: nat, balance: int, storageRoot: Option<Bytes>, codeHash: Option<CodeHash>, codeSize: nat)

  /** `Input`, the state before the block. */
  datatype Input = Input(account: Address -> Option<Record>, storage: (Address, nat) -> int, code: CodeHash -> Bytes,
                         keccak: Bytes -> CodeHash)

  /** `AccountBody`.  `origin` caches storage reads; `code` is loaded on demand. */
  datatype Body = Body(
    rec: Record,
    storageDirty: map<nat, int>,
    rawDirty: map<Bytes, Bytes>,
    code: Option<Bytes>,
    codeDirty: bool,
    suicided: bool,
    origin: Option<map<nat, int>>,
    touched: U32,
    mods: U32)

  /** `Account`; a NIL account has no body. */
  datatype Acct = Acct(body: Option<Body>, deleted: bool)

  /** One closure of the undo log. */
  datatype Undo =
    | StorageWas(who: Address, key: nat, prev: int)
    | BalanceWas(who: Address, balance: int)
    | NonceWas(who: Address, nonce: nat)
    | Untouched(who: Address)
    | NoCode(who: Address)
    | AliveWas(who: Address, suicided: bool, balance: int)
    | Absent(who: Address, deleted: bool)
    | LogsWere(count: nat)
    | RefundWas(refund: nat)

  /** `TransitionState`: the accounts loaded so far, the log list, the refund counter and
      transient storage, and the undo log. */
  datatype World = World(accounts: map<Address, Acct>, logs: seq<Bytes>, refund: nat, transient: map<(Address, Bytes), Bytes>)

  datatype State = State(world: World, reverts: seq<Undo>)

  function NewBody(): (b: Body)
  {
    Body(Record(0, 0, None, None, 0), map[], map[], None, false, false, None, 0, 0)
  }

  // ---------------------------------------------------------------------------------
  // Reading
  // ---------------------------------------------------------------------------------

  /** `GetAccountConcrete` for an address not loaded before. */
  function Loaded(input: Input, a: Address): (r: Acct)
  {
    match input.account(a)
    case None => Acct(None, false)
    case Some(rec) => Acct(Some(NewBody().(rec := rec)), false)
  }

  /** The account as a caller sees it, loaded or not. */
  function At(input: Input, w: World, a: Address): (r: Acct)
  {
    if a in w.accounts then w.accounts[a] else Loaded(input, a)
  }

  /** `get_committed_state`, without what it caches. */
  function CommittedIn(input: Input, a: Address, b: Body, key: nat): (v: int)
  {
    match b.origin
    case None => if b.rec.storageRoot.None? then 0 else input.storage(a, key)
    case Some(o) => if key in o then o[key] else input.storage(a, key)
  }

  function Committed(input: Input, a: Address, x: Acct, key: nat): (v: int)
  {
    if x.body.None? then 0 else CommittedIn(input, a, x.body.value, key)
  }

  /** `GetState`. */
  function Slot(input: Input, a: Address, x: Acct, key: nat): (v: int)
  {
    if x.body.None? then 0
    else if key in x.body.value.storageDirty then x.body.value.storageDirty[key]
    else CommittedIn(input, a, x.body.value, key)
  }

  /** `GetCode`. */
  function CodeOf(input: Input, x: Acct): (c: Bytes)
  {
    match x.body
    case None => []
    case Some(b) =>
      if b.rec.codeSize == 0 then []
      else if b.code.Some? then b.code.value
      else if b.rec.codeHash.Some? then input.code(b.rec.codeHash.value)
      else []
  }

  /** `GetCodeHash`; the hash of no code is left out. */
  function CodeHashOf(x: Acct): (h: Option<CodeHash>)
  {
    if x.body.None? || x.body.value.rec.codeSize == 0 then None else x.body.value.rec.codeHash
  }

  /** `IsEIP161Empty`. */
  predicate Empty(x: Acct)
  {
    match x.body
    case None => true
    case Some(b) => b.rec.nonce == 0 && b.rec.balance == 0 && b.rec.codeSize == 0
  }

  // ---------------------------------------------------------------------------------
  // Observable equality
  // ---------------------------------------------------------------------------------

  /** The same existence, balance, nonce, code and counters.  `loose` leaves the modification
      counter out. */
  ghost predicate SameFields(input: Input, x: Acct, y: Acct, loose: bool)
  {
    x.deleted == y.deleted && (x.body.None? <==> y.body.None?) &&
    (x.body.Some? ==>
       var b, c := x.body.value, y.body.value;
       b.rec.balance == c.rec.balance && b.rec.nonce == c.rec.nonce && b.rec.codeSize == c.rec.codeSize &&
       CodeHashOf(x) == CodeHashOf(y) && CodeOf(input, x) == CodeOf(input, y) &&
       b.suicided == c.suicided && b.touched == c.touched && (!loose ==> b.mods == c.mods))
  }

  /** The same storage, current and committed. */
  ghost predicate SameStorage(input: Input, a: Address, x: Acct, y: Acct)
  {
    (forall key: nat :: Slot(input, a, x, key) == Slot(input, a, y, key)) &&
    (forall key: nat :: Committed(input, a, x, key) == Committed(input, a, y, key))
  }

  /** Nothing a caller can read tells the accounts apart. */
  ghost predicate SameAcct(input: Input, a: Address, x: Acct, y: Acct, loose: bool)
  {
    SameFields(input, x, y, loose) && SameStorage(input, a, x, y)
  }

  /** Nothing tells the worlds apart, except the counters of the addresses in `loose`, raw
      storage and transient storage. */
  ghost predicate Same(input: Input, v: World, w: World, loose: set<Address>)
  {
    v.logs == w.logs && v.refund == w.refund &&
    forall a: Address :: SameAcct(input, a, At(input, v, a), At(input, w, a), a in loose)
  }

  lemma SameRefl(input: Input, w: World, loose: set<Address>)
    ensures Same(input, w, w, loose)
  {
  }

  lemma SameThen(input: Input, u: World, v: World, w: World, loose: set<Address>)
    requires Same(input, u, v, loose) && Same(input, v, w, loose)
    ensures Same(input, u, w, loose)
  {
    forall a: Address ensures SameAcct(input, a, At(input, u, a), At(input, w, a), a in loose) {
      assert SameAcct(input, a, At(input, u, a), At(input, v, a), a in loose);
      assert SameAcct(input, a, At(input, v, a), At(input, w, a), a in loose);
    }
  }

  // ---------------------------------------------------------------------------------
  // Undoing
  // ---------------------------------------------------------------------------------

  /** What a closure does to its account; one on a NIL account would dereference nil. */
  function UndoAcct(x: Acct, e: Undo): (r: Acct)
    requires x.body.Some? && !e.LogsWere? && !e.RefundWas?
  {
    var b := x.body.value.(mods := Dec(x.body.value.mods));
    match e
    case StorageWas(_, key, prev) => x.(body := Some(b.(storageDirty := b.storageDirty[key := prev])))
    case BalanceWas(_, v) => x.(body := Some(b.(rec := b.rec.(balance := v))))
    case NonceWas(_, v) => x.(body := Some(b.(rec := b.rec.(nonce := v))))
    case Untouched(_) => x.(body := Some(b.(touched := Dec(b.touched))))
    case NoCode(_) => x.(body := Some(b.(codeDirty := false, code := None, rec := b.rec.(codeHash := None, codeSize := 0))))
    case AliveWas(_, suicided, v) => x.(body := Some(b.(suicided := suicided, rec := b.rec.(balance := v))))
    case Absent(_, deleted) => Acct(None, deleted)
  }

  /** A closure can run: the account it belongs to is loaded and has a body. */
  predicate CanUndo(w: World, e: Undo)
  {
    match e
    case LogsWere(n) => n <= |w.logs|
    case RefundWas(_) => true
    case _ => e.who in w.accounts && w.accounts[e.who].body.Some?
  }

  function UndoOne(w: World, e: Undo): (r: World)
    requires CanUndo(w, e)
  {
    match e
    case LogsWere(n) => w.(logs := w.logs[..n])
    case RefundWas(n) => w.(refund := n)
    case _ => w.(accounts := w.accounts[e.who := UndoAcct(w.accounts[e.who], e)])
  }

  /** The backward loop of `RevertToSnapshot`. */
  predicate CanRollback(w: World, es: seq<Undo>)
    decreases |es|
  {
    es == [] || (CanUndo(w, es[|es| - 1]) && CanRollback(UndoOne(w, es[|es| - 1]), es[..|es| - 1]))
  }

  function Rollback(w: World, es: seq<Undo>): (r: World)
    requires CanRollback(w, es)
    decreases |es|
  {
    if es == [] then w else Rollback(UndoOne(w, es[|es| - 1]), es[..|es| - 1])
  }

  /** The accounts loaded in v are loaded in w. */
  predicate Loads(v: World, w: World)
  {
    forall a :: a in v.accounts ==> a in w.accounts
  }

  lemma BothExist(input: Input, v: World, w: World, a: Address, loose: set<Address>)
    requires Same(input, v, w, loose)
    ensures At(input, v, a).body.Some? <==> At(input, w, a).body.Some?
  {
    assert SameAcct(input, a, At(input, v, a), At(input, w, a), a in loose);
  }

  /** Closures act alike on worlds that cannot be told apart. */
  lemma UndoSame(input: Input, v: World, w: World, e: Undo, loose: set<Address>)
    requires Same(input, v, w, loose) && CanUndo(v, e) && Loads(v, w)
    ensures CanUndo(w, e) && Same(input, UndoOne(v, e), UndoOne(w, e), loose)
    ensures Loads(UndoOne(v, e), UndoOne(w, e))
  {
    hide SameAcct, UndoAcct;
    if !e.LogsWere? && !e.RefundWas? {
      var a := e.who;
      BothExist(input, v, w, a, loose);
      assert SameAcct(input, a, At(input, v, a), At(input, w, a), a in loose);
      UndoAcctSame(input, a, v.accounts[a], w.accounts[a], e, a in loose);
      SameExceptAt(input, v, w, UndoOne(v, e), UndoOne(w, e), a, loose);
    } else {
      SameAccounts(input, v, w, UndoOne(v, e), UndoOne(w, e), loose);
    }
  }

  lemma SameAccounts(input: Input, v: World, w: World, v': World, w': World, loose: set<Address>)
    requires Same(input, v, w, loose) && v'.accounts == v.accounts && w'.accounts == w.accounts
    requires v'.logs == w'.logs && v'.refund == w'.refund
    ensures Same(input, v', w', loose)
  {
    forall a: Address ensures SameAcct(input, a, At(input, v', a), At(input, w', a), a in loose) {
      assert SameAcct(input, a, At(input, v, a), At(input, w, a), a in loose);
    }
  }

  lemma SameExceptAt(input: Input, v: World, w: World, v': World, w': World, who: Address, loose: set<Address>)
    requires Same(input, v, w, loose) && v'.logs == w'.logs && v'.refund == w'.refund
    requires forall a :: a != who ==> At(input, v', a) == At(input, v, a) && At(input, w', a) == At(input, w, a)
    requires SameAcct(input, who, At(input, v', who), At(input, w', who), who in loose)
    ensures Same(input, v', w', loose)
  {
    forall a: Address ensures SameAcct(input, a, At(input, v', a), At(input, w', a), a in loose) {
      if a != who { assert SameAcct(input, a, At(input, v, a), At(input, w, a), a in loose); }
    }
  }

  lemma UndoAcctSame(input: Input, a: Address, x: Acct, y: Acct, e: Undo, loose: bool)
    requires SameAcct(input, a, x, y, loose) && x.body.Some? && !e.LogsWere? && !e.RefundWas?
    ensures SameAcct(input, a, UndoAcct(x, e), UndoAcct(y, e), loose)
  {
    UndoFieldsSame(input, x, y, e, loose);
    UndoStorageSame(input, a, x, y, e);
  }

  lemma UndoFieldsSame(input: Input, x: Acct, y: Acct, e: Undo, loose: bool)
    requires SameFields(input, x, y, loose) && x.body.Some? && !e.LogsWere? && !e.RefundWas?
    ensures SameFields(input, UndoAcct(x, e), UndoAcct(y, e), loose)
  {
  }

  lemma UndoStorageSame(input: Input, a: Address, x: Acct, y: Acct, e: Undo)
    requires SameStorage(input, a, x, y) && x.body.Some? && y.body.Some? && !e.LogsWere? && !e.RefundWas?
    ensures SameStorage(input, a, UndoAcct(x, e), UndoAcct(y, e))
  {
    var x', y' := UndoAcct(x, e), UndoAcct(y, e);
    forall key: nat
      ensures Slot(input, a, x', key) == Slot(input, a, y', key)
      ensures Committed(input, a, x', key) == Committed(input, a, y', key)
    {
      UndoSlot(input, a, x, e, key);
      UndoSlot(input, a, y, e, key);
      assert Slot(input, a, x, key) == Slot(input, a, y, key);
      assert Committed(input, a, x, key) == Committed(input, a, y, key);
    }
  }

  /** What a closure does to one slot. */
  lemma UndoSlot(input: Input, a: Address, x: Acct, e: Undo, key: nat)
    requires x.body.Some? && !e.LogsWere? && !e.RefundWas?
    ensures Slot(input, a, UndoAcct(x, e), key) ==
            if e.Absent? then 0 else if e.StorageWas? && e.key == key then e.prev else Slot(input, a, x, key)
    ensures Committed(input, a, UndoAcct(x, e), key) == if e.Absent? then 0 else Committed(input, a, x, key)
  {
  }

  lemma {:induction false} RollbackSame(input: Input, v: World, w: World, es: seq<Undo>, loose: set<Address>)
    requires Same(input, v, w, loose) && CanRollback(v, es) && Loads(v, w)
    ensures CanRollback(w, es) && Same(input, Rollback(v, es), Rollback(w, es), loose)
    ensures Loads(Rollback(v, es), Rollback(w, es))
    decreases |es|
  {
    if es != [] {
      var e := es[|es| - 1];
      UndoSame(input, v, w, e, loose);
      RollbackSame(input, UndoOne(v, e), UndoOne(w, e), es[..|es| - 1], loose);
    }
  }

  lemma {:induction false} RollbackAppend(w: World, xs: seq<Undo>, ys: seq<Undo>)
    requires CanRollback(w, ys)
    ensures CanRollback(w, xs + ys) <==> CanRollback(Rollback(w, ys), xs)
    ensures CanRollback(w, xs + ys) ==> Rollback(w, xs + ys) == Rollback(Rollback(w, ys), xs)
    decreases |ys|
  {
    if ys == [] {
      assert xs + ys == xs;
    } else {
      var n := |ys| - 1;
      assert (xs + ys)[..|xs + ys| - 1] == xs + ys[..n];
      RollbackAppend(UndoOne(w, ys[n]), xs, ys[..n]);
    }
  }

  // ---------------------------------------------------------------------------------
  // The operations
  // ---------------------------------------------------------------------------------

  function SetAcct(s: State, a: Address, x: Acct): (r: State)
  {
    s.(world := s.world.(accounts := s.world.accounts[a := x]))
  }

  /** `GetAccountConcrete`. */
  function Fetch(input: Input, s: State, a: Address): (r: State)
    ensures a in r.world.accounts && r.world.accounts[a] == At(input, s.world, a)
  {
    SetAcct(s, a, At(input, s.world, a))
  }

  /** A changed body, counted and journaled. */
  function Change(s: State, a: Address, b: Body, e: Undo): (r: State)
    requires a in s.world.accounts
  {
    SetAcct(s, a, s.world.accounts[a].(body := Some(b.(mods := Inc(b.mods))))).(reverts := s.reverts + [e])
  }

  /** `ensure_exists`. */
  function Ensure(s: State, a: Address): (r: State)
    requires a in s.world.accounts
    ensures a in r.world.accounts && r.world.accounts[a].body.Some?
  {
    var x := s.world.accounts[a];
    if x.body.Some? then s
    else SetAcct(s, a, Acct(Some(NewBody().(mods := Inc(0))), false)).(reverts := s.reverts + [Absent(a, x.deleted)])
  }

  /** What `get_committed_state` leaves in the cache. */
  function CacheCommitted(input: Input, a: Address, x: Acct, key: nat): (r: Acct)
  {
    match x.body
    case None => x
    case Some(b) =>
      if b.origin.None? then
        if b.rec.storageRoot.None? then x
        else x.(body := Some(b.(origin := Some(map[key := input.storage(a, key)]))))
      else if key in b.origin.value then x
      else x.(body := Some(b.(origin := Some(b.origin.value[key := input.storage(a, key)]))))
  }

  /** What `GetState` leaves in the cache. */
  function CacheSlot(input: Input, a: Address, x: Acct, key: nat): (r: Acct)
  {
    if x.body.Some? && key in x.body.value.storageDirty then x else CacheCommitted(input, a, x, key)
  }

  /** What `GetCode` leaves in the cache. */
  function CacheCode(input: Input, x: Acct): (r: Acct)
  {
    match x.body
    case None => x
    case Some(b) =>
      if b.rec.codeSize == 0 || b.code.Some? || b.rec.codeHash.None? then x
      else x.(body := Some(b.(code := Some(input.code(b.rec.codeHash.value)))))
  }

  function SetState(input: Input, s: State, a: Address, key: nat, value: int): (r: State)
    requires a in s.world.accounts
  {
    var s1 := Ensure(s, a);
    var x := s1.world.accounts[a];
    var prev := Slot(input, a, x, key);
    var s2 := SetAcct(s1, a, CacheSlot(input, a, x, key));
    if prev == value then s2
    else
      var b := s2.world.accounts[a].body.value;
      Change(s2, a, b.(storageDirty := b.storageDirty[key := value]), StorageWas(a, key, prev))
  }

  /** `set_balance` on an account that exists. */
  function SetBalance(s: State, a: Address, balance: int): (r: State)
    requires a in s.world.accounts && s.world.accounts[a].body.Some?
  {
    var b := s.world.accounts[a].body.value;
    Change(s, a, b.(rec := b.rec.(balance := balance)), BalanceWas(a, b.rec.balance))
  }

  function AddBalance(s: State, a: Address, amount: int): (r: State)
    requires a in s.world.accounts
  {
    var s1 := Ensure(s, a);
    if amount != 0 then SetBalance(s1, a, s1.world.accounts[a].body.value.rec.balance + amount)
    else if !Empty(s1.world.accounts[a]) then s1
    else Touch(s1, a)
  }

  /** The touch of an empty account; the ripemd address is counted once more. */
  function Touch(s: State, a: Address): (r: State)
    requires a in s.world.accounts && s.world.accounts[a].body.Some?
  {
    var b := s.world.accounts[a].body.value;
    var s1 := Change(s, a, b.(touched := Inc(b.touched)), Untouched(a));
    if a != RIPEMD then s1
    else
      var c := s1.world.accounts[a].body.value;
      SetAcct(s1, a, s1.world.accounts[a].(body := Some(c.(mods := Inc(c.mods)))))
  }

  /** What the flush at the end of a transaction reads: a change is counted once, and adding nothing
      touches an account exactly when it has neither nonce nor balance nor code. */
  lemma ChangesAreCounted(s: State, a: Address, b: Body, e: Undo)
    requires a in s.world.accounts && s.world.accounts[a].body.Some?
    ensures var r := Change(s, a, b, e);
            r.world.accounts[a].body == Some(b.(mods := Inc(b.mods))) && r.reverts == s.reverts + [e]
    ensures var x, y := s.world.accounts[a].body.value, AddBalance(s, a, 0).world.accounts[a].body.value;
            y.touched == (if x.rec.nonce == 0 && x.rec.balance == 0 && x.rec.codeSize == 0 then Inc(x.touched) else x.touched) &&
            y.mods == (if y.touched == x.touched then x.mods else if a == RIPEMD then Inc(Inc(x.mods)) else Inc(x.mods))
  {
  }

  function SubBalance(s: State, a: Address, amount: int): (r: State)
    requires a in s.world.accounts
  {
    var s1 := Ensure(s, a);
    if amount != 0 then SetBalance(s1, a, s1.world.accounts[a].body.value.rec.balance - amount) else s1
  }

  /** `SetNonce` and `IncrementNonce` on an account that exists. */
  function PutNonce(s: State, a: Address, nonce: nat): (r: State)
    requires a in s.world.accounts && s.world.accounts[a].body.Some?
  {
    var b := s.world.accounts[a].body.value;
    Change(s, a, b.(rec := b.rec.(nonce := nonce)), NonceWas(a, b.rec.nonce))
  }

  function WithCode(input: Input, b: Body, code: Bytes): (r: Body)
  {
    b.(codeDirty := true, code := Some(code),
       rec := b.rec.(codeHash := Some(input.keccak(code)), codeSize := |code|))
  }

  function SetCode(input: Input, s: State, a: Address, code: Bytes): (r: State)
    requires a in s.world.accounts
  {
    var s1 := Ensure(s, a);
    if code == [] then s1 else Change(s1, a, WithCode(input, s1.world.accounts[a].body.value, code), NoCode(a))
  }

  /** `SetStateRawIrreversibly`: counted, but not journaled. */
  function SetRaw(s: State, a: Address, key: Bytes, value: Bytes): (r: State)
    requires a in s.world.accounts
  {
    var s1 := Ensure(s, a);
    var x := s1.world.accounts[a];
    var b := x.body.value;
    SetAcct(s1, a, x.(body := Some(b.(rawDirty := b.rawDirty[key := value], mods := Inc(b.mods)))))
  }

  /** The end of `Suicide` on an account that exists. */
  function Die(s: State, a: Address): (r: State)
    requires a in s.world.accounts && s.world.accounts[a].body.Some?
  {
    var b := s.world.accounts[a].body.value;
    Change(s, a, b.(suicided := true, rec := b.rec.(balance := 0)), AliveWas(a, b.suicided, b.rec.balance))
  }

  function Suicide(input: Input, s: State, a: Address, heir: Address): (r: State)
    requires a in s.world.accounts
  {
    var s1 := Fetch(input, s, heir);
    var x := s1.world.accounts[a];
    if x.body.None? then AddBalance(s1, heir, 0)
    else
      ExistsStill(s1, heir, x.body.value.rec.balance, a);
      Die(AddBalance(s1, heir, x.body.value.rec.balance), a)
  }

  lemma ExistsStill(s: State, a: Address, amount: int, other: Address)
    requires a in s.world.accounts && other in s.world.accounts && s.world.accounts[other].body.Some?
    ensures var r := AddBalance(s, a, amount).world.accounts; other in r && r[other].body.Some?
  {
  }

  function AddLog(s: State, log: Bytes): (r: State)
  {
    State(s.world.(logs := s.world.logs + [log]), s.reverts + [LogsWere(|s.world.logs|)])
  }

  /** `AddRefund` and `SubRefund`. */
  function PutRefund(s: State, refund: nat): (r: State)
  {
    State(s.world.(refund := refund), s.reverts + [RefundWas(s.world.refund)])
  }

  // ---------------------------------------------------------------------------------
  // Every operation journals its inverse
  // ---------------------------------------------------------------------------------

  /** s2 extends the journal of s by closures that lead back to s. */
  ghost predicate Undoes(input: Input, s: State, s2: State, loose: set<Address>)
  {
    s.reverts <= s2.reverts &&
    var es := s2.reverts[|s.reverts|..];
    CanRollback(s2.world, es) && Same(input, s.world, Rollback(s2.world, es), loose) &&
    Loads(s.world, Rollback(s2.world, es))
  }

  lemma UndoesThen(input: Input, s: State, s1: State, s2: State, loose: set<Address>)
    requires Undoes(input, s, s1, loose) && Undoes(input, s1, s2, loose)
    ensures Undoes(input, s, s2, loose)
  {
    hide Same;
    var xs, ys := s1.reverts[|s.reverts|..], s2.reverts[|s1.reverts|..];
    assert s2.reverts[..|s1.reverts|] == s1.reverts && s1.reverts[..|s.reverts|] == s.reverts;
    assert s2.reverts[..|s.reverts|] == s.reverts;
    assert s2.reverts[|s.reverts|..] == xs + ys;
    var u := Rollback(s2.world, ys);
    RollbackSame(input, s1.world, u, xs, loose);
    RollbackAppend(s2.world, xs, ys);
    SameThen(input, s.world, Rollback(s1.world, xs), Rollback(u, xs), loose);
  }

  /** A change nobody can observe needs no closure. */
  lemma NeutralUndoes(input: Input, s: State, a: Address, x: Acct, loose: set<Address>)
    requires SameAcct(input, a, At(input, s.world, a), x, a in loose)
    ensures Undoes(input, s, SetAcct(s, a, x), loose)
  {
    SameRefl(input, s.world, loose);
    SameExceptAt(input, s.world, s.world, s.world, SetAcct(s, a, x).world, a, loose);
    assert s.reverts[|s.reverts|..] == [];
  }

  /** One closure that undoes the change of one account. */
  lemma OneUndoes(input: Input, s: State, a: Address, x: Acct, e: Undo, loose: set<Address>)
    requires a in s.world.accounts && x.body.Some? && !e.LogsWere? && !e.RefundWas? && e.who == a
    requires SameAcct(input, a, s.world.accounts[a], UndoAcct(x, e), a in loose)
    ensures Undoes(input, s, SetAcct(s, a, x).(reverts := s.reverts + [e]), loose)
  {
    var s2 := SetAcct(s, a, x).(reverts := s.reverts + [e]);
    var es := s2.reverts[|s.reverts|..];
    assert es == [e] && es[..0] == [];
    var back := UndoOne(s2.world, e);
    assert Rollback(s2.world, es) == Rollback(back, []) == back;
    SameRefl(input, s.world, loose);
    SameExceptAt(input, s.world, s.world, s.world, back, a, loose);
  }

  lemma FetchUndoes(input: Input, s: State, a: Address, loose: set<Address>)
    ensures Undoes(input, s, Fetch(input, s, a), loose)
  {
    NeutralUndoes(input, s, a, At(input, s.world, a), loose);
  }

  lemma EnsureUndoes(input: Input, s: State, a: Address, loose: set<Address>)
    requires a in s.world.accounts
    ensures Undoes(input, s, Ensure(s, a), loose)
  {
    var x := s.world.accounts[a];
    if x.body.None? {
      OneUndoes(input, s, a, Acct(Some(NewBody().(mods := Inc(0))), false), Absent(a, x.deleted), loose);
    } else {
      NeutralUndoes(input, s, a, x, loose);
      assert SetAcct(s, a, x) == s;
    }
  }

  /** Reads that fill a cache are neutral. */
  lemma CachesAreNeutral(input: Input, a: Address, x: Acct, key: nat)
    ensures SameAcct(input, a, x, CacheCommitted(input, a, x, key), false)
    ensures SameAcct(input, a, x, CacheSlot(input, a, x, key), false)
    ensures SameAcct(input, a, x, CacheCode(input, x), false)
  {
  }

  lemma {:induction false} ChangeUndoes(input: Input, s: State, a: Address, b: Body, e: Undo, loose: set<Address>)
    requires a in s.world.accounts && s.world.accounts[a].body.Some? && !e.LogsWere? && !e.RefundWas? && e.who == a
    requires var x := s.world.accounts[a];
             SameAcct(input, a, x, UndoAcct(x.(body := Some(b.(mods := Inc(b.mods)))), e), a in loose)
    ensures Undoes(input, s, Change(s, a, b, e), loose)
  {
    OneUndoes(input, s, a, s.world.accounts[a].(body := Some(b.(mods := Inc(b.mods)))), e, loose);
  }

  lemma SetStateUndoes(input: Input, s: State, a: Address, key: nat, value: int, loose: set<Address>)
    requires a in s.world.accounts
    ensures Undoes(input, s, SetState(input, s, a, key, value), loose)
  {
    var s1 := Ensure(s, a);
    var x := s1.world.accounts[a];
    var prev := Slot(input, a, x, key);
    var s2 := SetAcct(s1, a, CacheSlot(input, a, x, key));
    EnsureUndoes(input, s, a, loose);
    CachesAreNeutral(input, a, x, key);
    NeutralUndoes(input, s1, a, CacheSlot(input, a, x, key), loose);
    UndoesThen(input, s, s1, s2, loose);
    if prev != value {
      var y := s2.world.accounts[a];
      var b := y.body.value;
      StorageWriteUndone(input, a, y, key, value, prev);
      ChangeUndoes(input, s2, a, b.(storageDirty := b.storageDirty[key := value]), StorageWas(a, key, prev), loose);
      UndoesThen(input, s, s2, SetState(input, s, a, key, value), loose);
    }
  }

  /** Writing the old value back stands for forgetting the write. */
  lemma StorageWriteUndone(input: Input, a: Address, y: Acct, key: nat, value: int, prev: int)
    requires y.body.Some? && prev == Slot(input, a, y, key)
    ensures var b := y.body.value;
            var w := b.(storageDirty := b.storageDirty[key := value]);
            SameAcct(input, a, y, UndoAcct(y.(body := Some(w.(mods := Inc(w.mods)))), StorageWas(a, key, prev)), false)
  {
  }

  lemma SetBalanceUndoes(input: Input, s: State, a: Address, balance: int, loose: set<Address>)
    requires a in s.world.accounts && s.world.accounts[a].body.Some?
    ensures Undoes(input, s, SetBalance(s, a, balance), loose)
  {
    var b := s.world.accounts[a].body.value;
    ChangeUndoes(input, s, a, b.(rec := b.rec.(balance := balance)), BalanceWas(a, b.rec.balance), loose);
  }

  lemma TouchUndoes(input: Input, s: State, a: Address, loose: set<Address>)
    requires a in s.world.accounts && s.world.accounts[a].body.Some? && RIPEMD in loose
    ensures Undoes(input, s, Touch(s, a), loose)
  {
    var b := s.world.accounts[a].body.value;
    var s1 := Change(s, a, b.(touched := Inc(b.touched)), Untouched(a));
    ChangeUndoes(input, s, a, b.(touched := Inc(b.touched)), Untouched(a), loose);
    if a == RIPEMD {
      NeutralUndoes(input, s1, a, Touch(s, a).world.accounts[a], loose);
      assert SetAcct(s1, a, Touch(s, a).world.accounts[a]) == Touch(s, a);
      UndoesThen(input, s, s1, Touch(s, a), loose);
    }
  }

  lemma AddBalanceUndoes(input: Input, s: State, a: Address, amount: int, loose: set<Address>)
    requires a in s.world.accounts && RIPEMD in loose
    ensures Undoes(input, s, AddBalance(s, a, amount), loose)
  {
    var s1 := Ensure(s, a);
    EnsureUndoes(input, s, a, loose);
    if amount != 0 {
      SetBalanceUndoes(input, s1, a, s1.world.accounts[a].body.value.rec.balance + amount, loose);
      UndoesThen(input, s, s1, AddBalance(s, a, amount), loose);
    } else if Empty(s1.world.accounts[a]) {
      TouchUndoes(input, s1, a, loose);
      UndoesThen(input, s, s1, AddBalance(s, a, amount), loose);
    }
  }

  lemma SubBalanceUndoes(input: Input, s: State, a: Address, amount: int, loose: set<Address>)
    requires a in s.world.accounts
    ensures Undoes(input, s, SubBalance(s, a, amount), loose)
  {
    var s1 := Ensure(s, a);
    EnsureUndoes(input, s, a, loose);
    if amount != 0 {
      SetBalanceUndoes(input, s1, a, s1.world.accounts[a].body.value.rec.balance - amount, loose);
      UndoesThen(input, s, s1, SubBalance(s, a, amount), loose);
    }
  }

  lemma PutNonceUndoes(input: Input, s: State, a: Address, nonce: nat, loose: set<Address>)
    requires a in s.world.accounts
    ensures Undoes(input, s, PutNonce(Ensure(s, a), a, nonce), loose)
  {
    var s1 := Ensure(s, a);
    EnsureUndoes(input, s, a, loose);
    var b := s1.world.accounts[a].body.value;
    ChangeUndoes(input, s1, a, b.(rec := b.rec.(nonce := nonce)), NonceWas(a, b.rec.nonce), loose);
    UndoesThen(input, s, s1, PutNonce(s1, a, nonce), loose);
  }

  /** `SetCode` is undone exactly when there was no code: its closure knows no earlier one. */
  lemma SetCodeUndoneIff(input: Input, a: Address, x: Acct, code: Bytes)
    requires x.body.Some? && code != []
    ensures var b := WithCode(input, x.body.value, code);
            SameAcct(input, a, x, UndoAcct(x.(body := Some(b.(mods := Inc(b.mods)))), NoCode(a)), false)
            <==> x.body.value.rec.codeSize == 0
  {
    var b := WithCode(input, x.body.value, code);
    var y := UndoAcct(x.(body := Some(b.(mods := Inc(b.mods)))), NoCode(a));
    assert SameStorage(input, a, x, y);
  }

  predicate NoCodeAt(x: Acct)
  {
    x.body.Some? ==> x.body.value.rec.codeSize == 0
  }

  lemma SetCodeUndoes(input: Input, s: State, a: Address, code: Bytes, loose: set<Address>)
    requires a in s.world.accounts && (code != [] ==> NoCodeAt(s.world.accounts[a]))
    ensures Undoes(input, s, SetCode(input, s, a, code), loose)
  {
    var s1 := Ensure(s, a);
    EnsureUndoes(input, s, a, loose);
    if code != [] {
      SetCodeUndoneIff(input, a, s1.world.accounts[a], code);
      ChangeUndoes(input, s1, a, WithCode(input, s1.world.accounts[a].body.value, code), NoCode(a), loose);
      UndoesThen(input, s, s1, SetCode(input, s, a, code), loose);
    }
  }

  lemma SetRawUndoes(input: Input, s: State, a: Address, key: Bytes, value: Bytes, loose: set<Address>)
    requires a in s.world.accounts && a in loose
    ensures Undoes(input, s, SetRaw(s, a, key, value), loose)
  {
    var s1 := Ensure(s, a);
    EnsureUndoes(input, s, a, loose);
    NeutralUndoes(input, s1, a, SetRaw(s, a, key, value).world.accounts[a], loose);
    UndoesThen(input, s, s1, SetRaw(s, a, key, value), loose);
  }

  lemma SuicideUndoes(input: Input, s: State, a: Address, heir: Address, loose: set<Address>)
    requires a in s.world.accounts && RIPEMD in loose
    ensures Undoes(input, s, Suicide(input, s, a, heir), loose)
  {
    var s1 := Fetch(input, s, heir);
    FetchUndoes(input, s, heir, loose);
    var x := s1.world.accounts[a];
    if x.body.None? {
      AddBalanceUndoes(input, s1, heir, 0, loose);
      UndoesThen(input, s, s1, Suicide(input, s, a, heir), loose);
    } else {
      var s2 := AddBalance(s1, heir, x.body.value.rec.balance);
      AddBalanceUndoes(input, s1, heir, x.body.value.rec.balance, loose);
      ExistsStill(s1, heir, x.body.value.rec.balance, a);
      UndoesThen(input, s, s1, s2, loose);
      var b := s2.world.accounts[a].body.value;
      ChangeUndoes(input, s2, a, b.(suicided := true, rec := b.rec.(balance := 0)), AliveWas(a, b.suicided, b.rec.balance), loose);
      UndoesThen(input, s, s2, Suicide(input, s, a, heir), loose);
    }
  }

  lemma LogUndoes(input: Input, s: State, log: Bytes, loose: set<Address>)
    ensures Undoes(input, s, AddLog(s, log), loose)
  {
    var s2 := AddLog(s, log);
    var es := s2.reverts[|s.reverts|..];
    assert es == [LogsWere(|s.world.logs|)] && es[..0] == [];
    assert Rollback(s2.world, es) == UndoOne(s2.world, es[0]) == s.world;
    SameRefl(input, s.world, loose);
  }

  lemma RefundUndoes(input: Input, s: State, refund: nat, loose: set<Address>)
    ensures Undoes(input, s, PutRefund(s, refund), loose)
  {
    var s2 := PutRefund(s, refund);
    var es := s2.reverts[|s.reverts|..];
    assert es == [RefundWas(s.world.refund)] && es[..0] == [];
    assert Rollback(s2.world, es) == UndoOne(s2.world, es[0]) == s.world;
    SameRefl(input, s.world, loose);
  }
}
