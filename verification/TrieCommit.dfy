/** `commit` of ebla/trie/writer.go with the hash encoder of ebla/trie/hash_encoder.go: one walk over
    the changed nodes that feeds two encoders at the same time, writes new values and large branches
    to the database, and evicts what the cache limit does not keep. */
module TrieCommit {
  import opened Wrappers
  import opened Rlp
  import opened Trie
  import opened TrieNode
  import opened RlpEncoder
  import opened RlpRaw
  import opened HexPrefix
  import opened TrieHeap

  class HashEncoder {
    const encoder: Encoder
    var disabled: bool

    constructor ()
      ensures !disabled && encoder.S() == EMPTY && fresh(encoder)
    {
      encoder := new Encoder();
      disabled := false;
    }

    method Reset()
      modifies this, encoder
      ensures !disabled && encoder.S() == EMPTY
    {
      encoder.Reset();
      disabled := false;
    }

    method Toggle()
      modifies this
      ensures disabled == !old(disabled)
    {
      disabled := !disabled;
    }

    method AppendString(str: Bytes)
      requires !disabled ==> |encoder.str| + |str| + 5 < MAX_UINT32
      modifies encoder
      ensures encoder.S() == if disabled then old(encoder.S()) else AfterString(old(encoder.S()), str)
    {
      if !disabled {
        encoder.AppendString(str);
      }
    }

    /** -1 is None. */
    method ListStart() returns (pos: Option<nat>)
      modifies encoder
      ensures disabled ==> pos == None && encoder.S() == old(encoder.S())
      ensures !disabled ==> pos == Some(|old(encoder.lheads)|) && encoder.S() == AfterStart(old(encoder.S()))
    {
      if disabled {
        return None;
      }
      var p := encoder.ListStart();
      return Some(p);
    }

    /** Ends the list with payload `w` that was started in state `c`.  A small list stays in
        line; otherwise its hash is returned and, below the root, takes its place. */
    method ListEnd(s: Schema, pos: Option<nat>, isRoot: bool, ghost c: State, ghost w: Bytes) returns (out: Option<Hash>)
      requires !disabled ==> pos == Some(|c.heads|) && Appended(AfterStart(c), encoder.S(), w)
      requires !disabled ==> Size(encoder.S()) + 40 < MAX_UINT32
      modifies encoder
      ensures disabled ==> out == None && encoder.S() == old(encoder.S())
      ensures !disabled ==>
                var e := EncodeListOf(w);
                out == (if |e| < HASH_LENGTH && !isRoot then None else Some(s.keccak(e))) &&
                Appended(c, encoder.S(), if out.Some? && !isRoot then EncodeString(s.keccak(e)) else e)
    {
      if disabled {
        return None;
      }
      ListAround(c, encoder.S(), w);
      encoder.ListEnd(pos.value);
      var size := encoder.GetListSize(pos.value);
      if size < HASH_LENGTH && !isRoot {
        return None;
      }
      var bytes := encoder.Flush(pos);
      var hash := s.keccak(bytes);
      if !isRoot {
        encoder.RevertToListStart(pos.value);
        encoder.AppendString(hash);
        AppendedRaw(c, EncodeString(hash));
      }
      return Some(hash);
    }
  }

  // =================================================================================
  // `commit` of ebla/trie/writer.go: one walk over the changed nodes that feeds the hash encoder
  // and the storage encoder at the same time, writes new values and large branches to the
  // database, and evicts what the cache limit does not keep.
  // =================================================================================

  // ---------------------------------------------------------------------------------
  // What is appended, and how much room it takes
  // ---------------------------------------------------------------------------------

  /** Values whose hash encoding is longer than this are not committed: the encoders count in
      32 bits. */
  const MAX_VALUE: nat := 0x4000_0000

  ghost predicate ValuesFit(s: Schema, t: Trie)
    decreases t
  {
    match t
    case Nil => true
    case Leaf(_, val) => |s.toHashEncoding(val)| <= MAX_VALUE
    case Ext(_, child) => ValuesFit(s, child)
    case Branch(children) => forall i :: 0 <= i < |children| ==> ValuesFit(s, children[i])
  }

  /** The bytes for the hash encoder: a root keeps its list, other nodes are referred to. */
  function HashForm(s: Schema, t: Trie, isRoot: bool): (b: Bytes)
  {
    Encode(if isRoot then HashItem(s, t) else Ref(s, t))
  }

  /** The bytes for the storage encoder. */
  function StoreForm(s: Schema, t: Trie, isRoot: bool): (b: Bytes)
  {
    Encode(if isRoot then StoreItem(s, t, true) else StoreRef(s, t))
  }

  /** A node in hash form: in line or by hash. */
  lemma HashFormIs(s: Schema, t: Trie, isRoot: bool)
    requires t != Nil
    ensures HashItem(s, t).List?
    ensures var e := EncodeListOf(EncodeAll(HashItem(s, t).items));
            (|e| >= HASH_LENGTH <==> Large(s, t)) && s.keccak(e) == HashOf(s, t) &&
            HashForm(s, t, isRoot) == if Large(s, t) && !isRoot then EncodeString(s.keccak(e)) else e
  {
  }

  /** Enough room for a subtrie with `length` key symbols to come. */
  predicate HasRoom(e: State, length: nat)
  {
    Size(e) + 40000 * length + MAX_VALUE + 1000 < MAX_UINT32
  }

  /** Below a cached hash only what is in line is walked. */
  ghost predicate Quiet(s: Schema, n: Node, t: Trie)
  {
    (t.Branch? && Settled(s, n, t)) || (t.Leaf? && !Large(s, t))
  }

  lemma RefBound(s: Schema, t: Trie)
    ensures |Encode(Ref(s, t))| <= 33
  {
  }

  /** What the hash encoder got for a node, given its state before. */
  ghost predicate HashStep(s: Schema, off: bool, before: State, after: State, t: Trie, isRoot: bool)
  {
    if off then after == before else Appended(before, after, HashForm(s, t, isRoot))
  }

  // ---------------------------------------------------------------------------------
  // Leaves
  // ---------------------------------------------------------------------------------

  /** The payload of a leaf in hash form. */
  lemma LeafHashPayload(s: Schema, t: Trie, c: State, d: State, e: State)
    requires t.Leaf?
    requires d == AfterString(AfterStart(c), Compact(t.key)) && e == AfterString(d, s.toHashEncoding(t.val))
    ensures Appended(AfterStart(c), e, EncodeAll(HashItem(s, t).items))
  {
    var k, v := Str(Compact(t.key)), Str(s.toHashEncoding(t.val));
    AppendedRaw(AfterStart(c), Encode(k));
    AppendedRaw(d, Encode(v));
    AppendedThen(AfterStart(c), d, e, Encode(k), Encode(v));
    EncodeAllTwo(k, v);
  }

  /** The payload of a leaf in storage form. */
  lemma LeafStorePayload(s: Schema, t: Trie, isRoot: bool, c: State, d: State, e: State)
    requires t.Leaf?
    requires d == AfterString(AfterStart(c), Compact(t.key))
    requires e == if isRoot || Large(s, t) then AfterString(d, HashOf(s, t))
                  else if |t.val| <= s.maxInTrie then AfterString(d, t.val) else d
    ensures Appended(AfterStart(c), e, EncodeAll(StoreItem(s, t, isRoot).items))
  {
    var k := Str(Compact(t.key));
    AppendedRaw(AfterStart(c), Encode(k));
    var v := if isRoot || Large(s, t) then [Str(HashOf(s, t))] else if |t.val| <= s.maxInTrie then [Str(t.val)] else [];
    EncodeAllAppend([k], v);
    EncodeAllOne(k);
    if v == [] {
      assert Encode(k) + EncodeAll([]) == Encode(k);
    } else {
      EncodeAllOne(v[0]);
      assert v == [v[0]];
      AppendedRaw(d, Encode(v[0]));
      AppendedThen(AfterStart(c), d, e, Encode(k), Encode(v[0]));
    }
  }

  lemma LeafRoom(s: Schema, t: Trie, length: nat)
    requires Canonical(t, length) && length <= KEY_LENGTH && t.Leaf? && ValuesFit(s, t)
    ensures |Compact(t.key)| <= 65 && |EncodeString(Compact(t.key))| <= 68
    ensures |EncodeString(s.toHashEncoding(t.val))| <= MAX_VALUE + 10
    ensures |Encode(StoreItem(s, t, true))| <= LEAF_BOUND && |Encode(StoreItem(s, t, false))| <= LEAF_BOUND
    ensures |EncodeAll(HashItem(s, t).items)| <= MAX_VALUE + 100
  {
    KeyIsHexPath(t.key, length);
    SmallString(Compact(t.key));
    SmallTag(|s.toHashEncoding(t.val)|);
    LeafStoreBound(s, t, length, true);
    LeafStoreBound(s, t, length, false);
    EncodeAllTwo(Str(Compact(t.key)), Str(s.toHashEncoding(t.val)));
  }

  /** The leaf's part in the hash encoder, switched off while a cached hash stands in for it.
      `enc` is the value in storage form, empty for a placeholder. */
  method LeafIntoHash(s: Schema, h: HashEncoder, prefix: Path, n: ShortNode, ghost t: Trie) returns (enc: Bytes)
    requires n.Valid() && n.val.ValueLink? && |prefix| < KEY_LENGTH && Canonical(t, KEY_LENGTH - |prefix|)
    requires t.Leaf? && t.key == n.keyPart && (n.val.cell.Absent? ==> n.hash.Some?)
    requires !n.val.cell.Absent? ==> n.val.cell.val == t.val
    requires n.hash.Some? ==> n.hash.value == HashOf(s, t) && Large(s, t)
    requires HasRoom(h.encoder.S(), 1) && ValuesFit(s, t)
    requires prefix == [] ==> !h.disabled && n.hash.None?
    requires h.disabled ==> !Large(s, t)
    modifies h, h.encoder, n
    ensures n.Valid() && n.keyPart == old(n.keyPart) && n.val == old(n.val) && n.repr == {n}
    ensures n.hash == if prefix == [] || Large(s, t) then Some(HashOf(s, t)) else None
    ensures enc == if n.val.cell.Absent? then [] else n.val.cell.val
    ensures h.disabled == old(h.disabled)
    ensures HashStep(s, h.disabled, old(h.encoder.S()), h.encoder.S(), t, prefix == [])
  {
    LeafRoom(s, t, KEY_LENGTH - |prefix|);
    enc := if n.val.cell.Absent? then [] else n.val.cell.val;
    n.Set(n.keyPart, n.val, n.hash);
    if n.hash.Some? {
      ghost var h0 := h.encoder.S();
      h.AppendString(n.hash.value);
      AppendedRaw(h0, EncodeString(n.hash.value));
      h.Toggle();
      var nothing := LeafListIntoHash(s, h, false, n.keyPart, n.val.cell, t);
      h.Toggle();
    } else {
      var out := LeafListIntoHash(s, h, |prefix| == 0, n.keyPart, n.val.cell, t);
      n.Set(n.keyPart, n.val, out);
    }
  }

  method LeafListIntoHash(s: Schema, h: HashEncoder, isRoot: bool, key: Path, cell: Cell, ghost t: Trie) returns (out: Option<Hash>)
    requires t.Leaf? && t.key == key && ValuesFit(s, t) && |Compact(key)| <= 65
    requires !h.disabled ==> !cell.Absent? && cell.val == t.val && HasRoom(h.encoder.S(), 1)
    modifies h.encoder
    ensures h.disabled ==> out == None && h.encoder.S() == old(h.encoder.S())
    ensures !h.disabled ==> out == (if isRoot || Large(s, t) then Some(HashOf(s, t)) else None) &&
                            Appended(old(h.encoder.S()), h.encoder.S(), HashForm(s, t, isRoot))
  {
    SmallString(Compact(key));
    SmallTag(|s.toHashEncoding(t.val)|);
    ghost var c := h.encoder.S();
    var hashStart := h.ListStart();
    h.AppendString(Compact(key));
    if !cell.Absent? {
      h.AppendString(s.toHashEncoding(cell.val));
    }
    if !h.disabled {
      LeafHashPayload(s, t, c, AfterString(AfterStart(c), Compact(key)), h.encoder.S());
    }
    out := h.ListEnd(s, hashStart, isRoot, c, EncodeAll(HashItem(s, t).items));
  }

  /** The leaf's part in the storage encoder: its hash, or a small value, or only its key. */
  method LeafIntoStorage(s: Schema, store: Database, st: Encoder, isRoot: bool, key: Path, hash: Option<Hash>, enc: Bytes,
                         ghost t: Trie, ghost length: nat, ghost M: map<Hash, Bytes>)
    requires Canonical(t, length) && length <= KEY_LENGTH && t.Leaf? && t.key == key && ValuesFit(s, t)
    requires hash == if isRoot || Large(s, t) then Some(HashOf(s, t)) else None
    requires hash.None? ==> enc == t.val
    requires HasRoom(st.S(), 1)
    requires Within(store.nodes, M) && (isRoot ==> Bound(s, M, t, true))
    modifies store, st
    ensures Within(old(store.nodes), store.nodes) && Within(store.nodes, M) && store.values == old(store.values)
    ensures isRoot ==> Bound(s, store.nodes, t, true)
    ensures Appended(old(st.S()), st.S(), StoreForm(s, t, isRoot))
  {
    LeafRoom(s, t, length);
    ghost var c := st.S();
    var storageStart := st.ListStart();
    st.AppendString(Compact(key));
    if hash.Some? {
      st.AppendString(hash.value);
    } else if |enc| <= s.maxInTrie {
      st.AppendString(enc);
    }
    LeafStorePayload(s, t, isRoot, c, AfterString(AfterStart(c), Compact(key)), st.S());
    EndShortStorage(s, store, st, storageStart, isRoot, hash, c, t, M);
  }

  /** The end of a short node's storage list; a short root is stored under its hash. */
  method EndShortStorage(s: Schema, store: Database, st: Encoder, storageStart: nat, isRoot: bool, hash: Option<Hash>,
                         ghost d: State, ghost t: Trie, ghost M: map<Hash, Bytes>)
    requires t.Leaf? || t.Ext?
    requires storageStart == |d.heads| && Size(st.S()) + 10 < MAX_UINT32
    requires Appended(AfterStart(d), st.S(), EncodeAll(StoreItem(s, t, isRoot).items))
    requires isRoot ==> hash == Some(HashOf(s, t)) && Bound(s, M, t, true)
    requires Within(store.nodes, M)
    modifies store, st
    ensures Within(old(store.nodes), store.nodes) && Within(store.nodes, M) && store.values == old(store.values)
    ensures isRoot ==> Bound(s, store.nodes, t, true)
    ensures Appended(d, st.S(), StoreForm(s, t, isRoot))
  {
    ListAround(d, st.S(), EncodeAll(StoreItem(s, t, isRoot).items));
    st.ListEnd(storageStart);
    if isRoot {
      var bytes := st.Flush(Some(storageStart));
      store.PutNode(hash.value, bytes);
    }
  }

  method CommitLeaf(s: Schema, store: Database, st: Encoder, h: HashEncoder, prefix: Path, n: ShortNode,
                    ghost t: Trie, ghost M: map<Hash, Bytes>)
    requires n.Valid() && n.val.ValueLink? && |prefix| < KEY_LENGTH && Canonical(t, KEY_LENGTH - |prefix|)
    requires Denotes(s, store.D(), prefix, n.view, t)
    requires h.encoder != st && HasRoom(st.S(), 1) && HasRoom(h.encoder.S(), 1) && ValuesFit(s, t)
    requires Within(store.nodes, M) && (prefix == [] ==> Bound(s, M, t, true) && !h.disabled && n.hash.None?)
    requires h.disabled ==> !Large(s, t)
    modifies store, st, h, h.encoder, n
    ensures n.Valid() && n.repr == {n}
    ensures Within(old(store.nodes), store.nodes) && Within(store.nodes, M)
    ensures Fills(old(store.values), store.values, prefix, t)
    ensures Stored(s, store.D(), prefix, t) && Denotes(s, store.D(), prefix, n.view, t)
    ensures prefix == [] ==> n.hash.Some?
    ensures Appended(old(st.S()), st.S(), StoreForm(s, t, prefix == []))
    ensures h.disabled == old(h.disabled)
    ensures HashStep(s, h.disabled, old(h.encoder.S()), h.encoder.S(), t, prefix == [])
  {
    hide ValuesFit, Bound, StoreForm, Appended, HashStep;
    FillsLeaf(store.values, prefix, t, t.val);
    if n.val.cell.Raw? {
      store.PutValue(prefix + n.keyPart, Some(n.val.cell.val));
    }
    var enc := LeafIntoHash(s, h, prefix, n, t);
    LeafIntoStorage(s, store, st, |prefix| == 0, n.keyPart, n.hash, enc, t, KEY_LENGTH - |prefix|, M);
  }

  // ---------------------------------------------------------------------------------
  // Branches: payloads
  // ---------------------------------------------------------------------------------

  lemma {:induction false} RefsSnoc(s: Schema, ts: seq<Trie>, t: Trie)
    ensures Refs(s, ts + [t]) == Refs(s, ts) + [Ref(s, t)]
    decreases |ts|
  {
    if ts == [] {
      assert [] + [t] == [t] && [t][1..] == [];
    } else {
      assert (ts + [t])[1..] == ts[1..] + [t];
      RefsSnoc(s, ts[1..], t);
    }
  }

  lemma {:induction false} StoreRefsSnoc(s: Schema, ts: seq<Trie>, t: Trie)
    ensures StoreRefs(s, ts + [t]) == StoreRefs(s, ts) + [StoreRef(s, t)]
    decreases |ts|
  {
    if ts == [] {
      assert [] + [t] == [t] && [t][1..] == [];
    } else {
      assert (ts + [t])[1..] == ts[1..] + [t];
      StoreRefsSnoc(s, ts[1..], t);
    }
  }

  /** The payloads after one more child. */
  lemma PayloadsStep(s: Schema, ts: seq<Trie>, i: nat)
    requires i < |ts|
    ensures EncodeAll(Refs(s, ts[..i + 1])) == EncodeAll(Refs(s, ts[..i])) + HashForm(s, ts[i], false)
    ensures EncodeAll(StoreRefs(s, ts[..i + 1])) == EncodeAll(StoreRefs(s, ts[..i])) + StoreForm(s, ts[i], false)
  {
    assert ts[..i + 1] == ts[..i] + [ts[i]];
    RefsSnoc(s, ts[..i], ts[i]);
    StoreRefsSnoc(s, ts[..i], ts[i]);
    EncodeAllSnoc(Refs(s, ts[..i]), Ref(s, ts[i]));
    EncodeAllSnoc(StoreRefs(s, ts[..i]), StoreRef(s, ts[i]));
  }

  /** The payloads of the first children of a branch are small. */
  lemma PayloadsBound(s: Schema, t: Trie, length: nat, i: nat)
    requires Canonical(t, length) && length <= KEY_LENGTH && t.Branch? && i <= ARITY
    ensures |EncodeAll(Refs(s, t.children[..i]))| <= 528
    ensures |EncodeAll(StoreRefs(s, t.children[..i]))| <= 32000
  {
    var ts := t.children[..i];
    forall j | 0 <= j < i ensures |Encode(Refs(s, ts)[j])| <= 33 && |Encode(StoreRefs(s, ts)[j])| <= EXT_BOUND {
      RefsAt(s, ts, j);
      StoreRefsAt(s, ts, j);
      RefBound(s, ts[j]);
      StoreRefBound(s, t.children[j], length - 1);
    }
    ItemsBound(Refs(s, ts), 33);
    ItemsBound(StoreRefs(s, ts), EXT_BOUND);
  }

  /** A leaf in line in a branch in line is small. */
  lemma InlineLeafIsSmall(s: Schema, t: Trie, length: nat, i: nat)
    requires Canonical(t, length) && t.Branch? && !Large(s, t) && i < ARITY
    ensures t.children[i].Nil? || (t.children[i].Leaf? && !Large(s, t.children[i]))
  {
    InlineBranchChildren(s, t, length, i);
    RefsAt(s, t.children, i);
    OneItemBound(Refs(s, t.children) + [Str([])], i);
  }

  // ---------------------------------------------------------------------------------
  // The walk
  // ---------------------------------------------------------------------------------

  /** `commit`.  `M` fixes the content of every hash in use: Keccak does not collide on the
      nodes stored so far and those of this trie.  `levels` is `FullNodeLevelsToCache`. */
  method Commit(s: Schema, store: Database, st: Encoder, h: HashEncoder, levels: nat, above: nat, prefix: Path, n: Link,
                ghost t: Trie, ghost M: map<Hash, Bytes>) returns (l: Link)
    requires ValidLink(n) && |prefix| < KEY_LENGTH && t != Nil && Canonical(t, KEY_LENGTH - |prefix|)
    requires Denotes(s, store.D(), prefix, View(n), t)
    requires h.encoder != st && {store, st, h, h.encoder} !! Repr(n)
    requires HasRoom(st.S(), KEY_LENGTH - |prefix|) && HasRoom(h.encoder.S(), KEY_LENGTH - |prefix|) && ValuesFit(s, t)
    requires NodesIn(s, M, t) && Within(store.nodes, M)
    requires prefix == [] ==> Bound(s, M, t, true) && !h.disabled && !n.HashLink? && View(n).cachedHash.None?
    requires h.disabled ==> Quiet(s, View(n), t)
    modifies store, st, h, h.encoder, Repr(n)
    ensures ValidLink(l) && Repr(l) <= old(Repr(n))
    ensures Within(old(store.nodes), store.nodes) && Within(store.nodes, M)
    ensures Fills(old(store.values), store.values, prefix, t)
    ensures Stored(s, store.D(), prefix, t)
    ensures Denotes(s, store.D(), prefix, View(l), t) && Settled(s, View(l), t)
    ensures prefix == [] ==> l.HashLink? || View(l).cachedHash.Some?
    ensures Appended(old(st.S()), st.S(), StoreForm(s, t, prefix == []))
    ensures h.disabled == old(h.disabled)
    ensures HashStep(s, h.disabled, old(h.encoder.S()), h.encoder.S(), t, prefix == [])
    decreases t, 3
  {
    if n.HashLink? {
      AppendHash(s, st, h, n.hash, t);
      l := n;
    } else if n.ShortLink? {
      if n.short.val.ValueLink? {
        CommitLeaf(s, store, st, h, prefix, n.short, t, M);
      } else {
        CommitExt(s, store, st, h, levels, above, prefix, n.short, t, M);
      }
      l := n;
    } else if n.full.hash.Some? {
      AppendHash(s, st, h, n.full.hash.value, t);
      l := if levels <= above then HashLink(n.full.hash.value) else n;
    } else {
      l := CommitFull(s, store, st, h, levels, above, prefix, n.full, t, M);
    }
  }

  /** A large branch whose hash is known. */
  method AppendHash(s: Schema, st: Encoder, h: HashEncoder, hash: Hash, ghost t: Trie)
    requires t.Branch? && Large(s, t) && hash == HashOf(s, t)
    requires h.encoder != st && HasRoom(st.S(), 1) && HasRoom(h.encoder.S(), 1)
    modifies st, h.encoder
    ensures Appended(old(st.S()), st.S(), StoreForm(s, t, false))
    ensures HashStep(s, h.disabled, old(h.encoder.S()), h.encoder.S(), t, false)
  {
    AppendedRaw(st.S(), EncodeString(hash));
    AppendedRaw(h.encoder.S(), EncodeString(hash));
    h.AppendString(hash);
    st.AppendString(hash);
  }

  method CommitExt(s: Schema, store: Database, st: Encoder, h: HashEncoder, levels: nat, above: nat, prefix: Path, n: ShortNode,
                   ghost t: Trie, ghost M: map<Hash, Bytes>)
    requires n.Valid() && |prefix| < KEY_LENGTH && t.Ext? && Canonical(t, KEY_LENGTH - |prefix|)
    requires Denotes(s, store.D(), prefix, n.view, t)
    requires h.encoder != st && {store, st, h, h.encoder} !! n.repr
    requires HasRoom(st.S(), KEY_LENGTH - |prefix|) && HasRoom(h.encoder.S(), KEY_LENGTH - |prefix|) && ValuesFit(s, t)
    requires NodesIn(s, M, t) && Within(store.nodes, M)
    requires !h.disabled && (prefix == [] ==> Bound(s, M, t, true) && n.hash.None?)
    modifies store, st, h, h.encoder, n.repr
    ensures n.Valid() && n.repr <= old(n.repr)
    ensures Within(old(store.nodes), store.nodes) && Within(store.nodes, M)
    ensures Fills(old(store.values), store.values, prefix, t)
    ensures Stored(s, store.D(), prefix, t)
    ensures Denotes(s, store.D(), prefix, n.view, t)
    ensures prefix == [] ==> n.hash.Some?
    ensures Appended(old(st.S()), st.S(), StoreForm(s, t, prefix == []))
    ensures !h.disabled
    ensures HashStep(s, false, old(h.encoder.S()), h.encoder.S(), t, prefix == [])
    decreases t, 2
  {
    hide Stored, NodesIn, ValuesInDb;
    if n.hash.Some? {
      AppendedRaw(h.encoder.S(), EncodeString(n.hash.value));
      h.AppendString(n.hash.value);
      h.Toggle();
      CommitExtList(s, store, st, h, levels, above, prefix, n, t, M);
      h.Toggle();
    } else {
      CommitExtList(s, store, st, h, levels, above, prefix, n, t, M);
    }
  }

  /** An extension's payload in one encoder: the key part, then the child. */
  lemma ExtPayload(c: State, d: State, e: State, compact: Bytes, child: Item)
    requires d == AfterString(AfterStart(c), compact) && Appended(d, e, Encode(child))
    ensures Appended(AfterStart(c), e, EncodeAll([Str(compact), child]))
  {
    AppendedRaw(AfterStart(c), EncodeString(compact));
    AppendedThen(AfterStart(c), d, e, EncodeString(compact), Encode(child));
    EncodeAllTwo(Str(compact), child);
  }

  lemma ExtRoom(s: Schema, t: Trie, length: nat)
    requires Canonical(t, length) && length <= KEY_LENGTH && t.Ext?
    ensures |Compact(t.key)| <= 65 && |EncodeString(Compact(t.key))| <= 68
    ensures |Encode(Ref(s, t.child))| <= 33 && |Encode(StoreRef(s, t.child))| <= EXT_BOUND
    ensures |EncodeAll([Str(Compact(t.key)), Ref(s, t.child)])| <= 200
    ensures |EncodeAll([Str(Compact(t.key)), StoreRef(s, t.child)])| <= 3000
  {
    NibblesAreHexPath(t.key);
    SmallString(Compact(t.key));
    RefBound(s, t.child);
    StoreRefBound(s, t.child, length - |t.key|);
    EncodeAllTwo(Str(Compact(t.key)), Ref(s, t.child));
    EncodeAllTwo(Str(Compact(t.key)), StoreRef(s, t.child));
  }

  /** The lists of an extension; the hash encoder may be off because of the cached hash. */
  method CommitExtList(s: Schema, store: Database, st: Encoder, h: HashEncoder, levels: nat, above: nat, prefix: Path, n: ShortNode,
                       ghost t: Trie, ghost M: map<Hash, Bytes>)
    requires n.Valid() && |prefix| < KEY_LENGTH && t.Ext? && Canonical(t, KEY_LENGTH - |prefix|)
    requires t.key == n.keyPart && Denotes(s, store.D(), prefix + n.keyPart, View(n.val), t.child)
    requires h.encoder != st && {store, st, h, h.encoder} !! n.repr
    requires HasRoom(st.S(), KEY_LENGTH - |prefix|) && ValuesFit(s, t)
    requires HasRoom(h.encoder.S(), KEY_LENGTH - |prefix| - 1)
    requires !h.disabled ==> HasRoom(h.encoder.S(), KEY_LENGTH - |prefix|)
    requires NodesIn(s, M, t) && Within(store.nodes, M)
    requires prefix == [] ==> Bound(s, M, t, true)
    requires if h.disabled then Settled(s, View(n.val), t.child) && prefix != [] && n.hash == Some(HashOf(s, t)) && Large(s, t)
             else n.hash.None?
    modifies store, st, h, h.encoder, n.repr
    ensures n.Valid() && n.repr <= old(n.repr)
    ensures Within(old(store.nodes), store.nodes) && Within(store.nodes, M)
    ensures Fills(old(store.values), store.values, prefix, t)
    ensures Stored(s, store.D(), prefix, t)
    ensures Denotes(s, store.D(), prefix, n.view, t)
    ensures prefix == [] ==> n.hash.Some?
    ensures Appended(old(st.S()), st.S(), StoreForm(s, t, prefix == []))
    ensures h.disabled == old(h.disabled)
    ensures HashStep(s, h.disabled, old(h.encoder.S()), h.encoder.S(), t, prefix == [])
    decreases t, 1
  {
    hide Denotes, Stored, NodesIn, ValuesInDb, Flushable, FlushFrom, Canonical, ValuesFit, Appended, Encode, EncodeAll, EncodeString, EncodeListOf, Large, HashOf, StoreItem, Compact, Settled;
    ghost var c, d := h.encoder.S(), st.S();
    ExtRoom(s, t, KEY_LENGTH - |prefix|);
    var storageStart := st.ListStart();
    var hashStart := h.ListStart();
    var compact := Compact(n.keyPart);
    st.AppendString(compact);
    h.AppendString(compact);
    ghost var child := CommitExtChild(s, store, st, h, levels, above, prefix, n, t, M);
    ExtPayload(d, AfterString(AfterStart(d), compact), st.S(), compact, StoreRef(s, t.child));
    if !h.disabled {
      ExtPayload(c, AfterString(AfterStart(c), compact), h.encoder.S(), compact, Ref(s, t.child));
    }
    FinishExt(s, store, st, h, prefix, n, storageStart, hashStart, c, d, child, t, M);
  }

  /** The two list ends of an extension. */
  method FinishExt(s: Schema, store: Database, st: Encoder, h: HashEncoder, prefix: Path, n: ShortNode,
                   storageStart: nat, hashStart: Option<nat>, ghost c: State, ghost d: State, ghost child: Node,
                   ghost t: Trie, ghost M: map<Hash, Bytes>)
    requires n.Valid() && |prefix| < KEY_LENGTH && t.Ext? && Canonical(t, KEY_LENGTH - |prefix|)
    requires t.key == n.keyPart && n.view == Short(n.keyPart, child, n.hash)
    requires Denotes(s, store.D(), prefix + t.key, child, t.child) && Settled(s, child, t.child)
    requires Stored(s, store.D(), prefix + t.key, t.child)
    requires h.encoder != st && {store, st, h, h.encoder} !! n.repr
    requires storageStart == |d.heads| && HasRoom(d, 1)
    requires Appended(AfterStart(d), st.S(), EncodeAll([Str(Compact(t.key)), StoreRef(s, t.child)]))
    requires !h.disabled ==>
               hashStart == Some(|c.heads|) && HasRoom(c, 1) &&
               Appended(AfterStart(c), h.encoder.S(), EncodeAll([Str(Compact(t.key)), Ref(s, t.child)]))
    requires Within(store.nodes, M) && (prefix == [] ==> Bound(s, M, t, true))
    requires if h.disabled then prefix != [] && n.hash == Some(HashOf(s, t)) && Large(s, t) else n.hash.None?
    modifies store, st, h.encoder, n
    ensures n.Valid() && n.repr <= old(n.repr)
    ensures Within(old(store.nodes), store.nodes) && Within(store.nodes, M) && store.values == old(store.values)
    ensures Stored(s, store.D(), prefix, t)
    ensures Denotes(s, store.D(), prefix, n.view, t)
    ensures prefix == [] ==> n.hash.Some?
    ensures Appended(d, st.S(), StoreForm(s, t, prefix == []))
    ensures h.disabled ==> h.encoder.S() == old(h.encoder.S())
    ensures !h.disabled ==> Appended(c, h.encoder.S(), HashForm(s, t, prefix == []))
  {
    hide Denotes, Stored, NodesIn, ValuesInDb, Flushable, FlushFrom, Canonical, ValuesFit, Encode, EncodeAll, EncodeString, EncodeListOf, Large, HashOf, HashForm, StoreForm, Compact, Settled;
    ExtRoom(s, t, KEY_LENGTH - |prefix|);
    HashFormIs(s, t, |prefix| == 0);
    var out := h.ListEnd(s, hashStart, |prefix| == 0, c, EncodeAll([Str(Compact(t.key)), Ref(s, t.child)]));
    if out.Some? {
      n.Set(n.keyPart, n.val, out);
    }
    ghost var db := store.D();
    EndShortStorage(s, store, st, storageStart, |prefix| == 0, n.hash, d, t, M);
    ExtStands(s, db, store.D(), prefix, n.view, t);
  }

  /** The committed extension stands for its trie in the database after the commit. */
  lemma ExtStands(s: Schema, a: Db, b: Db, prefix: Path, n: Node, t: Trie)
    requires t.Ext? && n.Short? && n.key == t.key
    requires Denotes(s, a, prefix + t.key, n.val, t.child) && Settled(s, n.val, t.child)
    requires Stored(s, a, prefix + t.key, t.child)
    requires Within(a.nodes, b.nodes) && a.values == b.values
    requires n.cachedHash.Some? ==> n.cachedHash.value == HashOf(s, t) && (prefix == [] || Large(s, t))
    requires prefix == [] ==> Bound(s, b.nodes, t, true)
    ensures Stored(s, b, prefix, t) && Denotes(s, b, prefix, n, t)
  {
    StoredStays(s, a, b, prefix + t.key, t.child);
    DenotesStays(s, a, b, prefix + t.key, n.val, t.child);
  }

  /** The recursive call below an extension. */
  method CommitExtChild(s: Schema, store: Database, st: Encoder, h: HashEncoder, levels: nat, above: nat, prefix: Path, n: ShortNode,
                        ghost t: Trie, ghost M: map<Hash, Bytes>) returns (ghost child: Node)
    requires n.Valid() && |prefix| < KEY_LENGTH && t.Ext? && Canonical(t, KEY_LENGTH - |prefix|)
    requires t.key == n.keyPart && Denotes(s, store.D(), prefix + n.keyPart, View(n.val), t.child)
    requires h.encoder != st && {store, st, h, h.encoder} !! n.repr
    requires HasRoom(st.S(), KEY_LENGTH - |prefix| - 1) && HasRoom(h.encoder.S(), KEY_LENGTH - |prefix| - 1) && ValuesFit(s, t)
    requires NodesIn(s, M, t) && Within(store.nodes, M)
    requires h.disabled ==> Settled(s, View(n.val), t.child)
    modifies store, st, h, h.encoder, n.repr
    ensures n.Valid() && n.repr <= old(n.repr) && n.view == Short(old(n.keyPart), child, old(n.hash))
    ensures n.hash == old(n.hash) && n.keyPart == old(n.keyPart)
    ensures Within(old(store.nodes), store.nodes) && Within(store.nodes, M)
    ensures Fills(old(store.values), store.values, prefix, t)
    ensures Stored(s, store.D(), prefix + t.key, t.child)
    ensures Denotes(s, store.D(), prefix + t.key, child, t.child) && Settled(s, child, t.child)
    ensures Appended(old(st.S()), st.S(), StoreForm(s, t.child, false))
    ensures h.disabled == old(h.disabled)
    ensures HashStep(s, h.disabled, old(h.encoder.S()), h.encoder.S(), t.child, false)
    decreases t, 0
  {
    var c := Commit(s, store, st, h, levels, above, prefix + n.keyPart, n.val, t.child, M);
    FillsAbove(old(store.values), store.values, prefix, n.keyPart, t.child, t);
    child := View(c);
    n.Set(n.keyPart, c, n.hash);
  }

  method CommitFull(s: Schema, store: Database, st: Encoder, h: HashEncoder, levels: nat, above: nat, prefix: Path, n: FullNode,
                    ghost t: Trie, ghost M: map<Hash, Bytes>) returns (l: Link)
    requires n.Valid() && n.hash.None? && |prefix| < KEY_LENGTH && t.Branch? && Canonical(t, KEY_LENGTH - |prefix|)
    requires Denotes(s, store.D(), prefix, n.view, t)
    requires h.encoder != st && {store, st, h, h.encoder} !! n.repr
    requires HasRoom(st.S(), KEY_LENGTH - |prefix|) && HasRoom(h.encoder.S(), KEY_LENGTH - |prefix|) && ValuesFit(s, t)
    requires NodesIn(s, M, t) && Within(store.nodes, M)
    requires prefix == [] ==> Bound(s, M, t, true) && !h.disabled
    requires h.disabled ==> !Large(s, t)
    modifies store, st, h, h.encoder, n.repr
    ensures ValidLink(l) && Repr(l) <= old(n.repr)
    ensures Within(old(store.nodes), store.nodes) && Within(store.nodes, M)
    ensures Fills(old(store.values), store.values, prefix, t)
    ensures Stored(s, store.D(), prefix, t)
    ensures Denotes(s, store.D(), prefix, View(l), t) && Settled(s, View(l), t)
    ensures prefix == [] ==> l.HashLink? || View(l).cachedHash.Some?
    ensures Appended(old(st.S()), st.S(), StoreForm(s, t, prefix == []))
    ensures h.disabled == old(h.disabled)
    ensures HashStep(s, h.disabled, old(h.encoder.S()), h.encoder.S(), t, prefix == [])
    decreases t, 2
  {
    hide Denotes, Stored, NodesIn, ValuesInDb;
    ghost var c, d := h.encoder.S(), st.S();
    var hashStart := h.ListStart();
    var storageStart := st.ListStart();
    CommitChildren(s, store, st, h, levels, above, prefix, n, t, M);
    l := FinishFull(s, store, st, h, levels, above, prefix, n, hashStart, storageStart, c, d, t, M);
  }

  /** What the loop over the children has done up to child i. */
  ghost predicate Progress(s: Schema, db: Db, prefix: Path, n: Node, t: Trie, i: nat)
    requires t.Branch? && |t.children| == ARITY && i <= ARITY
  {
    n.Full? && n.cachedHash.None? && Denotes(s, db, prefix, n, t) &&
    (forall j :: 0 <= j < i ==> Stored(s, db, prefix + [j], t.children[j]))
  }

  /** The loop over the children. */
  method CommitChildren(s: Schema, store: Database, st: Encoder, h: HashEncoder, levels: nat, above: nat, prefix: Path, n: FullNode,
                        ghost t: Trie, ghost M: map<Hash, Bytes>)
    requires n.Valid() && n.hash.None? && |prefix| < KEY_LENGTH && t.Branch? && Canonical(t, KEY_LENGTH - |prefix|)
    requires Denotes(s, store.D(), prefix, n.view, t)
    requires h.encoder != st && {store, st, h, h.encoder} !! n.repr
    requires HasRoom(st.S(), KEY_LENGTH - |prefix|) && HasRoom(h.encoder.S(), KEY_LENGTH - |prefix|) && ValuesFit(s, t)
    requires NodesIn(s, M, t) && Within(store.nodes, M)
    requires h.disabled ==> !Large(s, t)
    modifies store, st, h, h.encoder, n.repr
    ensures n.Valid() && n.hash.None? && n.repr <= old(n.repr)
    ensures Within(old(store.nodes), store.nodes) && Within(store.nodes, M)
    ensures Fills(old(store.values), store.values, prefix, t)
    ensures Progress(s, store.D(), prefix, n.view, t, ARITY)
    ensures h.disabled == old(h.disabled)
    ensures Payloads(s, h.disabled, old(h.encoder.S()), h.encoder.S(), old(st.S()), st.S(), t.children)
    decreases t, 1
  {
    hide Denotes, Stored, NodesIn, ValuesInDb, Progress, Appended, Flushable, FlushFrom, HasRoom, HashForm, StoreForm,
      Refs, StoreRefs, EncodeAll, Canonical, ValuesFit, Large, Fills;
    ghost var c, d := h.encoder.S(), st.S();
    LoopStarts(s, store.D(), prefix, n.view, t, c, d, store.values);
    var i: nat := 0;
    while i < ARITY
      invariant i <= ARITY && n.Valid() && n.hash.None? && n.repr <= old(n.repr)
      invariant Within(old(store.nodes), store.nodes) && Within(store.nodes, M)
      invariant Fills(old(store.values), store.values, prefix, t)
      invariant Progress(s, store.D(), prefix, n.view, t, i)
      invariant h.disabled == old(h.disabled)
      invariant Payloads(s, h.disabled, c, h.encoder.S(), d, st.S(), t.children[..i])
    {
      ghost var c1, d1, values := h.encoder.S(), st.S(), store.values;
      PayloadsBound(s, t, KEY_LENGTH - |prefix|, i);
      RoomLeft(s, h.disabled, c, c1, d, d1, t.children[..i], KEY_LENGTH - |prefix|);
      CommitSlot(s, store, st, h, levels, above, prefix, n, i, t, M);
      PayloadsGrow(s, h.disabled, c, c1, h.encoder.S(), d, d1, st.S(), t.children, i);
      FillsThen(old(store.values), values, store.values, prefix, t);
      i := i + 1;
    }
    assert t.children[..ARITY] == t.children;
  }

  /** What both encoders got for a row of children. */
  ghost predicate Payloads(s: Schema, off: bool, c: State, c1: State, d: State, d1: State, ts: seq<Trie>)
  {
    Appended(d, d1, EncodeAll(StoreRefs(s, ts))) &&
    if off then c1 == c else Appended(c, c1, EncodeAll(Refs(s, ts)))
  }

  lemma LoopStarts(s: Schema, db: Db, prefix: Path, n: Node, t: Trie, c: State, d: State, values: map<Path, Bytes>)
    requires t.Branch? && n.Full? && n.cachedHash.None? && Denotes(s, db, prefix, n, t)
    ensures |t.children| == ARITY && Progress(s, db, prefix, n, t, 0)
    ensures Payloads(s, true, c, c, d, d, t.children[..0]) && Payloads(s, false, c, c, d, d, t.children[..0])
    ensures Fills(values, values, prefix, t)
  {
    AppendedNothing(c);
    AppendedNothing(d);
  }

  lemma RoomLeft(s: Schema, off: bool, c: State, c1: State, d: State, d1: State, ts: seq<Trie>, length: nat)
    requires Payloads(s, off, c, c1, d, d1, ts) && HasRoom(c, length) && HasRoom(d, length) && length > 0
    requires |EncodeAll(Refs(s, ts))| <= 528 && |EncodeAll(StoreRefs(s, ts))| <= 32000
    ensures HasRoom(c1, length - 1) && HasRoom(d1, length - 1)
  {
  }

  lemma PayloadsGrow(s: Schema, off: bool, c: State, c1: State, c2: State, d: State, d1: State, d2: State, ts: seq<Trie>, i: nat)
    requires i < |ts| && Payloads(s, off, c, c1, d, d1, ts[..i])
    requires Appended(d1, d2, StoreForm(s, ts[i], false)) && HashStep(s, off, c1, c2, ts[i], false)
    ensures Payloads(s, off, c, c2, d, d2, ts[..i + 1])
  {
    PayloadsStep(s, ts, i);
    AppendedThen(d, d1, d2, EncodeAll(StoreRefs(s, ts[..i])), StoreForm(s, ts[i], false));
    if !off {
      AppendedThen(c, c1, c2, EncodeAll(Refs(s, ts[..i])), HashForm(s, ts[i], false));
    }
  }

  /** One child: committed, or an empty string for a missing one. */
  method CommitSlot(s: Schema, store: Database, st: Encoder, h: HashEncoder, levels: nat, above: nat, prefix: Path, n: FullNode,
                    i: nat, ghost t: Trie, ghost M: map<Hash, Bytes>)
    requires i < ARITY
    requires n.Valid() && n.hash.None? && |prefix| < KEY_LENGTH && t.Branch? && Canonical(t, KEY_LENGTH - |prefix|)
    requires Progress(s, store.D(), prefix, n.view, t, i)
    requires h.encoder != st && {store, st, h, h.encoder} !! n.repr
    requires HasRoom(st.S(), KEY_LENGTH - |prefix| - 1) && HasRoom(h.encoder.S(), KEY_LENGTH - |prefix| - 1) && ValuesFit(s, t)
    requires NodesIn(s, M, t) && Within(store.nodes, M)
    requires h.disabled ==> !Large(s, t)
    modifies store, st, h, h.encoder, n.repr
    ensures n.Valid() && n.hash.None? && n.repr <= old(n.repr)
    ensures Within(old(store.nodes), store.nodes) && Within(store.nodes, M)
    ensures Fills(old(store.values), store.values, prefix, t)
    ensures Progress(s, store.D(), prefix, n.view, t, i + 1)
    ensures Appended(old(st.S()), st.S(), StoreForm(s, t.children[i], false))
    ensures h.disabled == old(h.disabled)
    ensures HashStep(s, h.disabled, old(h.encoder.S()), h.encoder.S(), t.children[i], false)
    decreases t, 0
  {
    hide Denotes, Stored, NodesIn, ValuesInDb;
    ghost var db, was := store.D(), n.view;
    NilSlot(s, db, prefix, was, t, i);
    if n.children[i].NilLink? {
      AppendedRaw(st.S(), EncodeString([]));
      AppendedRaw(h.encoder.S(), EncodeString([]));
      h.AppendString([]);
      st.AppendString([]);
    } else {
      if h.disabled { InlineLeafIsSmall(s, t, KEY_LENGTH - |prefix|, i); }
      NodesOfBranch(s, M, t, i);
      ghost var c := CommitPresent(s, store, st, h, levels, above, prefix, n, i, t.children[i], M);
      SlotCommitted(s, db, store.D(), prefix, was, t, i, c);
    }
  }

  /** The recursive call for a child that is there. */
  method CommitPresent(s: Schema, store: Database, st: Encoder, h: HashEncoder, levels: nat, above: nat, prefix: Path, n: FullNode,
                       i: nat, ghost u: Trie, ghost M: map<Hash, Bytes>) returns (ghost c: Node)
    requires i < ARITY && n.Valid() && n.hash.None? && |prefix| + 1 < KEY_LENGTH
    requires u != Nil && Canonical(u, KEY_LENGTH - |prefix| - 1)
    requires Denotes(s, store.D(), prefix + [i], n.view.children[i], u)
    requires h.encoder != st && {store, st, h, h.encoder} !! n.repr
    requires HasRoom(st.S(), KEY_LENGTH - |prefix| - 1) && HasRoom(h.encoder.S(), KEY_LENGTH - |prefix| - 1) && ValuesFit(s, u)
    requires NodesIn(s, M, u) && Within(store.nodes, M)
    requires h.disabled ==> Quiet(s, n.view.children[i], u)
    modifies store, st, h, h.encoder, n.repr
    ensures n.Valid() && n.hash.None? && n.repr <= old(n.repr)
    ensures n.view == Full(old(n.view.children)[i := c], None)
    ensures Within(old(store.nodes), store.nodes) && Within(store.nodes, M)
    ensures Fills(old(store.values), store.values, prefix + [i], u)
    ensures Denotes(s, store.D(), prefix + [i], c, u) && Stored(s, store.D(), prefix + [i], u)
    ensures Appended(old(st.S()), st.S(), StoreForm(s, u, false))
    ensures h.disabled == old(h.disabled)
    ensures HashStep(s, h.disabled, old(h.encoder.S()), h.encoder.S(), u, false)
    decreases u, 4
  {
    hide Denotes, Stored, NodesIn, ValuesInDb;
    ghost var rest := SetAside(n, i);
    var l := Commit(s, store, st, h, levels, above + 1, prefix + [i], n.children[i], u, M);
    c := View(l);
    n.Replace(i, l, None, rest);
  }

  lemma NodesOfBranch(s: Schema, M: map<Hash, Bytes>, t: Trie, i: nat)
    requires t.Branch? && NodesIn(s, M, t)
    ensures i < |t.children| ==> NodesIn(s, M, t.children[i])
    ensures Large(s, t) ==> Bound(s, M, t, false) && Bound(s, M, t, true)
  {
  }

  lemma NilSlot(s: Schema, db: Db, prefix: Path, n: Node, t: Trie, i: nat)
    requires t.Branch? && |t.children| == ARITY && i < ARITY && Progress(s, db, prefix, n, t, i)
    ensures |n.children| == ARITY && Denotes(s, db, prefix + [i], n.children[i], t.children[i])
    ensures n.children[i].NoNode? <==> t.children[i] == Nil
    ensures n.children[i].NoNode? ==> Progress(s, db, prefix, n, t, i + 1)
  {
    NoNodeIffNil(s, db, prefix + [i], n.children[i], t.children[i]);
  }

  lemma NoNodeIffNil(s: Schema, db: Db, prefix: Path, n: Node, t: Trie)
    requires Denotes(s, db, prefix, n, t)
    ensures n.NoNode? <==> t == Nil
    ensures t == Nil ==> Stored(s, db, prefix, t)
  {
  }

  /** Committing one child leaves the others standing for their tries. */
  lemma SlotCommitted(s: Schema, a: Db, b: Db, prefix: Path, n: Node, t: Trie, i: nat, c: Node)
    requires t.Branch? && |t.children| == ARITY && i < ARITY && Progress(s, a, prefix, n, t, i)
    requires Within(a.nodes, b.nodes) && Fills(a.values, b.values, prefix + [i], t.children[i])
    requires Denotes(s, b, prefix + [i], c, t.children[i]) && Stored(s, b, prefix + [i], t.children[i])
    ensures |n.children| == ARITY && Progress(s, b, prefix, Full(n.children[i := c], None), t, i + 1)
    ensures Fills(a.values, b.values, prefix, t)
  {
    FillsAbove(a.values, b.values, prefix, [i], t.children[i], t);
    forall j | 0 <= j < ARITY && j != i ensures Denotes(s, b, prefix + [j], n.children[j], t.children[j]) {
      SiblingUntouched(a.values, b.values, prefix, i, t.children[i], j);
      DenotesStays(s, a, b, prefix + [j], n.children[j], t.children[j]);
    }
    forall j | 0 <= j < i + 1 ensures Stored(s, b, prefix + [j], t.children[j]) {
      if j < i {
        SiblingUntouched(a.values, b.values, prefix, i, t.children[i], j);
        StoredStays(s, a, b, prefix + [j], t.children[j]);
      }
    }
  }

  /** The list ends of a branch; a large branch, and a root, goes to the database. */
  method FinishFull(s: Schema, store: Database, st: Encoder, h: HashEncoder, levels: nat, above: nat, prefix: Path, n: FullNode,
                    hashStart: Option<nat>, storageStart: nat, ghost c: State, ghost d: State,
                    ghost t: Trie, ghost M: map<Hash, Bytes>) returns (l: Link)
    requires n.Valid() && n.hash.None? && |prefix| < KEY_LENGTH && t.Branch? && Canonical(t, KEY_LENGTH - |prefix|)
    requires Progress(s, store.D(), prefix, n.view, t, ARITY)
    requires h.encoder != st && {store, st, h, h.encoder} !! n.repr
    requires storageStart == |d.heads| && HasRoom(d, 1)
    requires Appended(AfterStart(d), st.S(), EncodeAll(StoreRefs(s, t.children)))
    requires !h.disabled ==> hashStart == Some(|c.heads|) && HasRoom(c, 1) &&
                             Appended(AfterStart(c), h.encoder.S(), EncodeAll(Refs(s, t.children)))
    requires NodesIn(s, M, t) && Within(store.nodes, M)
    requires prefix == [] ==> Bound(s, M, t, true) && !h.disabled
    requires h.disabled ==> !Large(s, t)
    modifies store, st, h.encoder, n
    ensures ValidLink(l) && Repr(l) <= old(n.repr)
    ensures Within(old(store.nodes), store.nodes) && Within(store.nodes, M) && store.values == old(store.values)
    ensures Stored(s, store.D(), prefix, t)
    ensures Denotes(s, store.D(), prefix, View(l), t) && Settled(s, View(l), t)
    ensures prefix == [] ==> l.HashLink? || View(l).cachedHash.Some?
    ensures Appended(d, st.S(), StoreForm(s, t, prefix == []))
    ensures h.disabled ==> h.encoder.S() == old(h.encoder.S())
    ensures !h.disabled ==> Appended(c, h.encoder.S(), HashForm(s, t, prefix == []))
  {
    hide Denotes, Stored, NodesIn, ValuesInDb, Flushable, FlushFrom, Appended, Progress, ClosedAlone, Bound, HashForm, StoreForm,
      Settled, Large, HashOf, EncodeAll, StoreRefs, Refs;
    PayloadsBound(s, t, KEY_LENGTH - |prefix|, ARITY);
    assert t.children[..ARITY] == t.children;
    EndFullStorage(s, st, |prefix| == 0, storageStart, d, t);
    EndFullHash(s, h, |prefix| == 0, n, hashStart, c, t);
    ghost var db := store.D();
    NodesOfBranch(s, M, t, 0);
    PutFull(s, store, st, |prefix| == 0, n.hash, storageStart, d, t, M);
    FullStands(s, db, store.D(), prefix, n.view, t);
    hide Canonical, HasRoom;
    if n.hash.Some? && levels <= above {
      l := HashLink(n.hash.value);
    } else {
      l := FullLink(n);
    }
  }

  /** The seventeenth item of a branch is empty. */
  lemma BranchHashPayload(s: Schema, t: Trie, c: State, e: State)
    requires t.Branch? && |EncodeAll(Refs(s, t.children))| <= 528
    ensures |EncodeAll(HashItem(s, t).items)| <= 529
    ensures Appended(AfterStart(c), e, EncodeAll(Refs(s, t.children))) ==>
              Appended(AfterStart(c), AfterString(e, []), EncodeAll(HashItem(s, t).items))
  {
    var w := EncodeAll(Refs(s, t.children));
    AppendedRaw(e, EncodeString([]));
    EncodeAllSnoc(Refs(s, t.children), Str([]));
    if Appended(AfterStart(c), e, w) { AppendedThen(AfterStart(c), e, AfterString(e, []), w, EncodeString([])); }
  }

  /** The seventeenth item and the end of a branch's hash list. */
  method EndFullHash(s: Schema, h: HashEncoder, isRoot: bool, n: FullNode, hashStart: Option<nat>, ghost c: State, ghost t: Trie)
    requires n.Valid() && n.hash.None? && t.Branch? && {h, h.encoder} !! n.repr
    requires |EncodeAll(Refs(s, t.children))| <= 528
    requires !h.disabled ==> hashStart == Some(|c.heads|) && HasRoom(c, 1) &&
                             Appended(AfterStart(c), h.encoder.S(), EncodeAll(Refs(s, t.children)))
    requires isRoot ==> !h.disabled
    requires h.disabled ==> !Large(s, t)
    modifies h.encoder, n
    ensures n.Valid() && n.repr == old(n.repr) && n.view == Full(old(n.view.children), n.hash)
    ensures n.hash == if isRoot || Large(s, t) then Some(HashOf(s, t)) else None
    ensures h.disabled ==> h.encoder.S() == old(h.encoder.S())
    ensures !h.disabled ==> Appended(c, h.encoder.S(), HashForm(s, t, isRoot))
  {
    hide Flushable, FlushFrom, HashItem, Encode, EncodeAll, EncodeListOf, Refs, Large, HashOf, HashForm;
    ghost var e := h.encoder.S();
    BranchHashPayload(s, t, c, e);
    HashFormIs(s, t, isRoot);
    h.AppendString([]);
    var out := h.ListEnd(s, hashStart, isRoot, c, EncodeAll(HashItem(s, t).items));
    n.SetHash(out);
  }

  /** The storage list of a branch is the last one closed, so that it can be flushed alone and
      taken back. */
  ghost predicate ClosedAlone(s: Schema, d: State, e: State, t: Trie, isRoot: bool)
  {
    Appended(d, e, Encode(StoreItem(s, t, isRoot))) &&
    |d.heads| < |e.heads| && e.heads[|d.heads|].strPos <= |e.str| &&
    Flushable(e, |d.heads|, e.heads[|d.heads|].strPos) &&
    FlushFrom(e, |d.heads|, e.heads[|d.heads|].strPos) == Encode(StoreItem(s, t, isRoot)) &&
    AfterRevert(e, |d.heads|) == d
  }

  method EndFullStorage(s: Schema, st: Encoder, isRoot: bool, storageStart: nat, ghost d: State, ghost t: Trie)
    requires t.Branch? && storageStart == |d.heads| && HasRoom(d, 1)
    requires |EncodeAll(StoreRefs(s, t.children))| <= 32000
    requires Appended(AfterStart(d), st.S(), EncodeAll(StoreRefs(s, t.children)))
    modifies st
    ensures ClosedAlone(s, d, st.S(), t, isRoot)
  {
    ListAround(d, st.S(), EncodeAll(StoreRefs(s, t.children)));
    st.ListEnd(storageStart);
  }

  /** A branch with a hash goes to the database; below the root its hash takes its place. */
  method StoreFull(s: Schema, store: Database, st: Encoder, isRoot: bool, hash: Hash, storageStart: nat, ghost d: State,
                   ghost t: Trie, ghost M: map<Hash, Bytes>)
    requires t.Branch? && hash == HashOf(s, t) && storageStart == |d.heads| && Size(d) + 100 < MAX_UINT32
    requires ClosedAlone(s, d, st.S(), t, isRoot)
    requires Bound(s, M, t, isRoot) && Within(store.nodes, M) && (isRoot || Large(s, t))
    modifies store, st
    ensures Within(old(store.nodes), store.nodes) && Within(store.nodes, M) && store.values == old(store.values)
    ensures Bound(s, store.nodes, t, isRoot)
    ensures Appended(d, st.S(), StoreForm(s, t, isRoot))
  {
    var bytes := st.Flush(Some(storageStart));
    store.PutNode(hash, bytes);
    if !isRoot {
      st.RevertToListStart(storageStart);
      st.AppendString(hash);
      AppendedRaw(d, EncodeString(hash));
    }
  }

  method PutFull(s: Schema, store: Database, st: Encoder, isRoot: bool, hash: Option<Hash>, storageStart: nat, ghost d: State,
                 ghost t: Trie, ghost M: map<Hash, Bytes>)
    requires t.Branch? && storageStart == |d.heads| && Size(d) + 100 < MAX_UINT32
    requires hash == if isRoot || Large(s, t) then Some(HashOf(s, t)) else None
    requires ClosedAlone(s, d, st.S(), t, isRoot)
    requires (isRoot || Large(s, t) ==> Bound(s, M, t, isRoot)) && Within(store.nodes, M)
    modifies store, st
    ensures Within(old(store.nodes), store.nodes) && Within(store.nodes, M) && store.values == old(store.values)
    ensures isRoot || Large(s, t) ==> Bound(s, store.nodes, t, isRoot)
    ensures Appended(d, st.S(), StoreForm(s, t, isRoot))
  {
    if hash.Some? {
      StoreFull(s, store, st, isRoot, hash.value, storageStart, d, t, M);
    }
  }

  /** The committed branch stands for its trie in the database after the commit. */
  lemma FullStands(s: Schema, a: Db, b: Db, prefix: Path, n: Node, t: Trie)
    requires t.Branch? && |t.children| == ARITY && n.Full? && Progress(s, a, prefix, Full(n.children, None), t, ARITY)
    requires Within(a.nodes, b.nodes) && a.values == b.values
    requires n.cachedHash == if prefix == [] || Large(s, t) then Some(HashOf(s, t)) else None
    requires n.cachedHash.Some? ==> Bound(s, b.nodes, t, prefix == [])
    requires prefix == [] && Large(s, t) ==> Bound(s, b.nodes, t, false)
    ensures Stored(s, b, prefix, t) && Denotes(s, b, prefix, n, t)
    ensures Settled(s, n, t)
    ensures n.cachedHash.Some? ==> Denotes(s, b, prefix, HashRef(n.cachedHash.value), t) && Settled(s, HashRef(n.cachedHash.value), t)
  {
    forall i | 0 <= i < ARITY
      ensures Stored(s, b, prefix + [i], t.children[i]) && Denotes(s, b, prefix + [i], n.children[i], t.children[i])
    {
      StoredStays(s, a, b, prefix + [i], t.children[i]);
      DenotesStays(s, a, b, prefix + [i], n.children[i], t.children[i]);
    }
  }
}
