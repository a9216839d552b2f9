/** The objects of ebla/state/state_evm that are updated in place, each method against the
    value-level operation of `Journal` that it performs. */
module StateObjects {
  import opened Wrappers
  import opened Rlp
  import opened Journal
  import opened JournalRun
  import opened NetMetering
  import opened StoragePrices

  /** `Account`.  It is reached through the table of its host. */
  class Account {
    const addr: Address
    const host: TransitionState
    var body: Option<Body>
    var deleted: bool

    constructor (a: Address, h: TransitionState, x: Acct)
      ensures addr == a && host == h && V() == x
    {
      addr, host, body, deleted := a, h, x.body, x.deleted;
    }

    ghost function V(): (x: Acct)
      reads this
    {
      Acct(body, deleted)
    }

    ghost predicate Listed()
      reads this, host, host.accounts.Values
    {
      host.Valid() && addr in host.accounts && host.accounts[addr] == this
    }

    ghost predicate Exists()
      reads this, host, host.accounts.Values
    {
      Listed() && body.Some?
    }

    /** Overwrites the fields. */
    method Update(b: Option<Body>, d: bool)
      requires Listed()
      modifies this
      ensures Listed() && body == b && deleted == d
      ensures host.S() == SetAcct(old(host.S()), addr, Acct(b, d))
    {
      body, deleted := b, d;
      assert forall a :: a in host.accounts && a != addr ==> host.accounts[a].V() == old(host.accounts[a].V());
      assert host.S().world.accounts == old(host.S()).world.accounts[addr := Acct(b, d)];
    }

    /** `register_change` with a closure. */
    method RegisterChange(b: Body, e: Undo)
      requires Exists() && !e.RefundWas? && !e.LogsWere?
      modifies this, host
      ensures Exists() && host.accounts == old(host.accounts)
      ensures host.S() == Change(old(host.S()), addr, b, e)
    {
      Update(Some(b.(mods := Inc(b.mods))), deleted);
      host.RegisterChange(e);
    }

    /** `ensure_exists`. */
    method EnsureExists()
      requires Listed()
      modifies this, host
      ensures Exists() && host.accounts == old(host.accounts)
      ensures host.S() == Ensure(old(host.S()), addr)
    {
      if body.Some? { return; }
      var wasDeleted := deleted;
      Update(Some(NewBody().(mods := Inc(0))), false);
      host.RegisterChange(Absent(addr, wasDeleted));
    }

    /** `get_committed_state`. */
    method GetCommittedState(key: nat) returns (v: int)
      requires Listed()
      modifies this
      ensures Listed() && v == Committed(host.input, addr, old(V()), key)
      ensures host.S() == SetAcct(old(host.S()), addr, CacheCommitted(host.input, addr, old(V()), key))
    {
      if body.None? {
        v := 0;
      } else if body.value.origin.None? && body.value.rec.storageRoot.None? {
        v := 0;
      } else if body.value.origin.Some? && key in body.value.origin.value {
        v := body.value.origin.value[key];
      } else {
        v := host.input.storage(addr, key);
        var o := if body.value.origin.None? then map[] else body.value.origin.value;
        Update(Some(body.value.(origin := Some(o[key := v]))), deleted);
        return;
      }
      Update(body, deleted);
    }

    method GetState(key: nat) returns (v: int)
      requires Listed()
      modifies this
      ensures Listed() && v == Slot(host.input, addr, old(V()), key)
      ensures host.S() == SetAcct(old(host.S()), addr, CacheSlot(host.input, addr, old(V()), key))
    {
      if body.Some? && key in body.value.storageDirty {
        v := body.value.storageDirty[key];
        Update(body, deleted);
      } else {
        v := GetCommittedState(key);
      }
    }

    method GetCode() returns (c: Bytes)
      requires Listed()
      modifies this
      ensures Listed() && c == CodeOf(host.input, old(V()))
      ensures host.S() == SetAcct(old(host.S()), addr, CacheCode(host.input, old(V())))
    {
      c := [];
      if body.Some? && body.value.rec.codeSize != 0 {
        if body.value.code.Some? {
          c := body.value.code.value;
        } else if body.value.rec.codeHash.Some? {
          c := host.input.code(body.value.rec.codeHash.value);
          Update(Some(body.value.(code := Some(c))), deleted);
          return;
        }
      }
      Update(body, deleted);
    }

    method SetState(key: nat, value: int)
      requires Listed()
      modifies this, host
      ensures Exists() && host.accounts == old(host.accounts)
      ensures host.S() == Journal.SetState(host.input, old(host.S()), addr, key, value)
    {
      EnsureExists();
      var prev := GetState(key);
      if prev == value { return; }
      var b := body.value;
      RegisterChange(b.(storageDirty := b.storageDirty[key := value]), StorageWas(addr, key, prev));
    }

    method SetBalance(amount: int)
      requires Exists()
      modifies this, host
      ensures Exists() && host.accounts == old(host.accounts)
      ensures host.S() == Journal.SetBalance(old(host.S()), addr, amount)
    {
      var b := body.value;
      RegisterChange(b.(rec := b.rec.(balance := amount)), BalanceWas(addr, b.rec.balance));
    }

    method AddBalance(amount: int)
      requires Listed()
      modifies this, host
      ensures Exists() && host.accounts == old(host.accounts)
      ensures host.S() == Journal.AddBalance(old(host.S()), addr, amount)
    {
      EnsureExists();
      if amount != 0 {
        SetBalance(body.value.rec.balance + amount);
        return;
      }
      if !(body.value.rec.nonce == 0 && body.value.rec.balance == 0 && body.value.rec.codeSize == 0) { return; }
      var b := body.value;
      RegisterChange(b.(touched := Inc(b.touched)), Untouched(addr));
      if addr == RIPEMD {
        Update(Some(body.value.(mods := Inc(body.value.mods))), deleted);
      }
    }

    method SubBalance(amount: int)
      requires Listed()
      modifies this, host
      ensures Exists() && host.accounts == old(host.accounts)
      ensures host.S() == Journal.SubBalance(old(host.S()), addr, amount)
    {
      EnsureExists();
      if amount != 0 {
        SetBalance(body.value.rec.balance - amount);
      }
    }

    /** A smaller nonce fails the assertion: false. */
    method SetNonce(nonce: nat) returns (ok: bool)
      requires Listed()
      modifies this, host
      ensures Exists() && host.accounts == old(host.accounts)
      ensures ok <==> Do(host.input, old(host.S()), PutNonceOf(addr, nonce)).Some?
      ensures ok ==> host.S() == Do(host.input, old(host.S()), PutNonceOf(addr, nonce)).value
    {
      FetchListed(host.S(), addr);
      EnsureExists();
      var b := body.value;
      if nonce < b.rec.nonce { return false; }
      RegisterChange(b.(rec := b.rec.(nonce := nonce)), NonceWas(addr, b.rec.nonce));
      ok := true;
    }

    method IncrementNonce()
      requires Listed()
      modifies this, host
      ensures Exists() && host.accounts == old(host.accounts)
      ensures host.S() == Do(host.input, old(host.S()), NextNonce(addr)).value
    {
      FetchListed(host.S(), addr);
      EnsureExists();
      var b := body.value;
      RegisterChange(b.(rec := b.rec.(nonce := b.rec.nonce + 1)), NonceWas(addr, b.rec.nonce));
    }

    method SetCode(code: Bytes)
      requires Listed()
      modifies this, host
      ensures Exists() && host.accounts == old(host.accounts)
      ensures host.S() == Journal.SetCode(host.input, old(host.S()), addr, code)
    {
      EnsureExists();
      if |code| == 0 { return; }
      RegisterChange(WithCode(host.input, body.value, code), NoCode(addr));
    }

    method SetStateRawIrreversibly(key: Bytes, value: Bytes)
      requires Listed()
      modifies this, host
      ensures Exists() && host.accounts == old(host.accounts)
      ensures host.S() == SetRaw(old(host.S()), addr, key, value)
    {
      EnsureExists();
      var b := body.value;
      Update(Some(b.(rawDirty := b.rawDirty[key := value], mods := Inc(b.mods))), deleted);
    }

    method Suicide(heir: Address)
      requires Listed()
      modifies this, host, host.accounts.Values
      ensures Listed()
      ensures host.S() == Journal.Suicide(host.input, old(host.S()), addr, heir)
    {
      var to := host.GetAccountConcrete(heir);
      if body.None? {
        to.AddBalance(0);
        return;
      }
      to.AddBalance(body.value.rec.balance);
      var b := body.value;
      RegisterChange(b.(suicided := true, rec := b.rec.(balance := 0)), AliveWas(addr, b.suicided, b.rec.balance));
    }
  }

  lemma FetchListed(s: State, a: Address)
    requires a in s.world.accounts
    ensures forall input: Input :: Fetch(input, s, a) == s
  {
    forall input: Input ensures Fetch(input, s, a) == s {
      assert s.world.accounts[a := s.world.accounts[a]] == s.world.accounts;
    }
  }

  /** The reads of `gasSStore` one after the other. */
  lemma GasSStoreCases(input: Input, s: State, a: Address, key: nat, value: int)
    requires a in s.world.accounts
    ensures var x := s.world.accounts[a];
            var y := CacheSlot(input, a, x, key);
            Committed(input, a, y, key) == Committed(input, a, x, key) &&
            GasSStore(input, s, a, key, value) ==
            if Slot(input, a, x, key) == value then Some((SetAcct(s, a, y), NOOP_GAS))
            else Metered(SetAcct(SetAcct(s, a, y), a, CacheCommitted(input, a, y, key)),
                         Committed(input, a, x, key), Slot(input, a, x, key), value)
  {
    hide Metered;
    var x := s.world.accounts[a];
    var y := CacheSlot(input, a, x, key);
    CachesAreNeutral(input, a, x, key);
    assert SetAcct(SetAcct(s, a, y), a, CacheCommitted(input, a, y, key)) == AfterReads(input, s, a, key);
  }

  /** `TransitionState`. */
  class TransitionState {
    const input: Input
    var accounts: map<Address, Account>
    var logs: seq<Bytes>
    var refund: nat
    var transient: map<(Address, Bytes), Bytes>
    var reverts: seq<Undo>

    constructor (i: Input)
      ensures Valid() && input == i && S() == State(World(map[], [], 0, map[]), [])
    {
      input, accounts, logs, refund, transient, reverts := i, map[], [], 0, map[], [];
    }

    ghost predicate Valid()
      reads this, accounts.Values
    {
      forall a :: a in accounts ==> accounts[a].addr == a && accounts[a].host == this
    }

    ghost function S(): (s: State)
      reads this, accounts.Values
    {
      State(World(map a | a in accounts :: accounts[a].V(), logs, refund, transient), reverts)
    }

    method GetAccountConcrete(a: Address) returns (acc: Account)
      requires Valid()
      modifies this
      ensures acc.Listed() && acc.addr == a && acc.host == this
      ensures S() == Fetch(input, old(S()), a)
      ensures forall b :: b in old(accounts) ==> b in accounts && accounts[b] == old(accounts[b])
      ensures a !in old(accounts) ==> fresh(acc)
      ensures accounts.Values <= old(accounts.Values) + {acc}
    {
      if a in accounts {
        acc := accounts[a];
        FetchListed(S(), a);
        return;
      }
      acc := new Account(a, this, Loaded(input, a));
      accounts := accounts[a := acc];
      assert S().world.accounts == old(S()).world.accounts[a := Loaded(input, a)];
    }

    method RegisterChange(e: Undo)
      modifies `reverts
      ensures reverts == old(reverts) + [e]
    {
      reverts := reverts + [e];
    }

    method AddLog(log: Bytes)
      requires Valid()
      modifies this
      ensures Valid() && accounts == old(accounts) && S() == Journal.AddLog(old(S()), log)
    {
      RegisterChange(LogsWere(|logs|));
      logs := logs + [log];
    }

    method AddRefund(gas: nat)
      requires Valid()
      modifies this
      ensures Valid() && accounts == old(accounts) && S() == Gain(old(S()), gas)
    {
      RegisterChange(RefundWas(refund));
      refund := (refund + gas) % Journal.TWO_TO_THE_64;
    }

    /** False is the panic. */
    method SubRefund(gas: nat) returns (ok: bool)
      requires Valid()
      modifies this
      ensures Valid() && accounts == old(accounts) && (ok <==> Lose(old(S()), gas).Some?)
      ensures S() == if ok then Lose(old(S()), gas).value else old(S())
    {
      if gas > refund { return false; }
      RegisterChange(RefundWas(refund));
      refund := refund - gas;
      ok := true;
    }

    method Snapshot() returns (n: nat)
      ensures n == |reverts|
    {
      n := |reverts|;
    }

    /** `GetTransientState`. */
    method GetTransientState(a: Address, key: Bytes) returns (v: Bytes)
      requires Valid()
      ensures v == Transient(S().world, a, key)
    {
      v := if (a, key) in transient then transient[(a, key)] else ZERO_HASH;
    }

    /** `SetTransientState`. */
    method SetTransientState(a: Address, key: Bytes, value: Bytes)
      requires Valid()
      modifies `transient
      ensures Valid() && S() == SetTransient(old(S()), a, key, value)
      ensures reverts == old(reverts)
    {
      var prev := GetTransientState(a, key);
      if prev == value { return; }
      transient := transient[(a, key) := value];
    }

    /** Runs one closure. */
    method Undo(e: Journal.Undo)
      requires Valid() && CanUndo(S().world, e)
      modifies this, accounts.Values
      ensures Valid() && accounts == old(accounts)
      ensures S() == State(UndoOne(old(S()).world, e), old(S()).reverts)
    {
      if e.LogsWere? {
        logs := logs[..e.count];
      } else if e.RefundWas? {
        refund := e.refund;
      } else {
        var acc := accounts[e.who];
        var x := UndoAcct(Acct(acc.body, acc.deleted), e);
        acc.Update(x.body, x.deleted);
      }
    }

    /** `RevertToSnapshot`. */
    method RevertToSnapshot(snapshot: nat)
      requires Valid() && snapshot <= |reverts| && CanRollback(S().world, reverts[snapshot..])
      modifies this, accounts.Values
      ensures Valid() && accounts == old(accounts)
      ensures S() == Revert(old(S()), snapshot)
    {
      hide UndoOne;
      var i := |reverts|;
      assert reverts[snapshot..i] == reverts[snapshot..];
      while i > snapshot
        invariant snapshot <= i <= |reverts| && Valid() && accounts == old(accounts) && reverts == old(reverts)
        invariant CanRollback(S().world, reverts[snapshot..i])
        invariant Rollback(S().world, reverts[snapshot..i]) == Rollback(old(S()).world, old(reverts)[snapshot..])
      {
        i := i - 1;
        assert reverts[snapshot..i + 1][..i - snapshot] == reverts[snapshot..i];
        Undo(reverts[i]);
      }
      reverts := reverts[..snapshot];
    }

    /** `gasSStore`; None is the panic of `SubRefund`. */
    method GasSStoreCost(acc: Account, key: nat, value: int) returns (cost: Option<nat>)
      requires acc.Listed() && acc.host == this
      modifies this, acc
      ensures acc.Listed() && accounts == old(accounts)
      ensures cost.Some? <==> GasSStore(input, old(S()), acc.addr, key, value).Some?
      ensures cost.Some? ==> GasSStore(input, old(S()), acc.addr, key, value) == Some((S(), cost.value))
    {
      hide Metered, GasSStore, CacheSlot, CacheCommitted, Slot, Committed;
      GasSStoreCases(input, S(), acc.addr, key, value);
      var current := acc.GetState(key);
      if current == value { return Some(NOOP_GAS); }
      var original := acc.GetCommittedState(key);
      cost := Meter(original, current, value);
    }

    /** The branches of `gasSStore` behind its reads. */
    method Meter(original: int, current: int, value: int) returns (cost: Option<nat>)
      requires Valid()
      modifies this
      ensures Valid() && accounts == old(accounts)
      ensures cost.Some? <==> Metered(old(S()), original, current, value).Some?
      ensures cost.Some? ==> Metered(old(S()), original, current, value) == Some((S(), cost.value))
    {
      if original == current {
        if original == 0 { return Some(INIT_GAS); }
        if value == 0 { AddRefund(CLEAR_REFUND); }
        return Some(CLEAN_GAS);
      }
      if original != 0 {
        if current == 0 {
          var ok := SubRefund(CLEAR_REFUND);
          if !ok { return None; }
        } else if value == 0 {
          AddRefund(CLEAR_REFUND);
        }
      }
      if original == value {
        if original == 0 { AddRefund(RESET_CLEAR_REFUND); } else { AddRefund(RESET_REFUND); }
      }
      return Some(DIRTY_GAS);
    }
  }
}
