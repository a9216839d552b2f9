/** The `Writer` of ebla/trie/writer.go as its callers see it, and whole runs of it: writes,
    commits that may evict parts of the trie, reopening from a committed root, and enumeration. */
module TrieRun {
  import opened Wrappers
  import opened Rlp
  import opened RlpEncoder
  import opened Trie
  import opened TrieMap
  import opened HexPrefix
  import opened TrieNode
  import opened TrieHeap
  import opened TrieWriter
  import opened TrieCommit

  // ---------------------------------------------------------------------------------
  // Dropping the value of a key that is not in the trie
  // ---------------------------------------------------------------------------------

  /** The full key k is not in the trie t below `prefix`. */
  predicate NotIn(k: Path, prefix: Path, t: Trie)
  {
    prefix <= k ==> Get(t, k[|prefix|..]) == None
  }

  lemma NotInLeaf(k: Path, prefix: Path, t: Trie)
    requires t.Leaf? && NotIn(k, prefix, t)
    ensures prefix + t.key != k
  {
    assert (prefix + t.key)[|prefix|..] == t.key;
  }

  lemma NotInExt(k: Path, prefix: Path, t: Trie)
    requires t.Ext? && NotIn(k, prefix, t)
    ensures NotIn(k, prefix + t.key, t.child)
  {
    if prefix + t.key <= k {
      LongerPrefix(prefix, t.key, k);
      assert k[|prefix|..][..|t.key|] == (prefix + t.key)[|prefix|..] == t.key;
      assert k[|prefix|..][|t.key|..] == k[|prefix + t.key|..];
    }
  }

  lemma NotInBranch(k: Path, prefix: Path, t: Trie, i: Byte)
    requires t.Branch? && i < |t.children| && NotIn(k, prefix, t)
    ensures NotIn(k, prefix + [i], t.children[i])
  {
    if prefix + [i] <= k {
      LongerPrefix(prefix, [i], k);
      assert k[|prefix|] == (prefix + [i])[|prefix|] == i;
      assert k[|prefix|..][1..] == k[|prefix + [i]|..];
    }
  }

  lemma {:induction false} ValuesWithout(values: map<Path, Bytes>, k: Path, prefix: Path, t: Trie)
    requires ValuesInDb(values, prefix, t) && NotIn(k, prefix, t)
    ensures ValuesInDb(values - {k}, prefix, t)
    decreases t
  {
    match t
    case Nil =>
    case Leaf(_, _) => NotInLeaf(k, prefix, t);
    case Ext(key, child) =>
      NotInExt(k, prefix, t);
      ValuesWithout(values, k, prefix + key, child);
    case Branch(children) =>
      forall i | 0 <= i < |children| && i < 256 ensures ValuesInDb(values - {k}, prefix + [i], children[i]) {
        NotInBranch(k, prefix, t, i);
        ValuesWithout(values, k, prefix + [i], children[i]);
      }
  }

  lemma HashOkWithout(s: Schema, db: Db, k: Path, prefix: Path, h: Option<Hash>, t: Trie)
    requires HashOk(s, db, prefix, h, t) && NotIn(k, prefix, t)
    ensures HashOk(s, Db(db.nodes, db.values - {k}), prefix, h, t)
  {
    if h.Some? && (prefix == [] || t.Branch?) { ValuesWithout(db.values, k, prefix, t); }
  }

  /** `Delete` drops a value that no node stands for any more. */
  lemma {:induction false} DenotesWithout(s: Schema, db: Db, k: Path, prefix: Path, n: Node, t: Trie)
    requires Denotes(s, db, prefix, n, t) && NotIn(k, prefix, t)
    ensures Denotes(s, Db(db.nodes, db.values - {k}), prefix, n, t)
    decreases n
  {
    match n
    case NoNode =>
    case HashRef(_) => ValuesWithout(db.values, k, prefix, t);
    case Value(_) =>
    case Short(key, val, h) =>
      HashOkWithout(s, db, k, prefix, h, t);
      if val.Value? {
        NotInLeaf(k, prefix, t);
      } else {
        NotInExt(k, prefix, t);
        DenotesWithout(s, db, k, prefix + key, val, t.child);
      }
    case Full(children, h) =>
      HashOkWithout(s, db, k, prefix, h, t);
      forall i | 0 <= i < ARITY
        ensures Denotes(s, Db(db.nodes, db.values - {k}), prefix + [i], children[i], t.children[i])
      {
        NotInBranch(k, prefix, t, i);
        DenotesWithout(s, db, k, prefix + [i], children[i], t.children[i]);
      }
  }

  // ---------------------------------------------------------------------------------
  // The writer
  // ---------------------------------------------------------------------------------

  /** `Writer`.  The database it is given with every call is one object here. */
  class Writer {
    const schema: Schema
    const store: Database
    const levels: nat
    const st: Encoder
    const h: HashEncoder
    var root: Link
    ghost var trie: Trie

    ghost predicate Valid()
      reads this, store, Head(root), Repr(root)
    {
      {this, store, st, h, h.encoder} !! Repr(root) && h.encoder != st && ValidLink(root) &&
      Canonical(trie, KEY_LENGTH) && Denotes(schema, store.D(), [], View(root), trie)
    }

    /** `Init` on the hash of a stored trie, or on none. */
    constructor (s: Schema, db: Database, rootHash: Option<Hash>, cacheLevels: nat, ghost t: Trie)
      requires Canonical(t, KEY_LENGTH) && rootHash == RootHash(s, t) && Stored(s, db.D(), [], t)
      ensures Valid() && trie == t && fresh(Repr(root)) && fresh(st) && fresh(h) && fresh(h.encoder)
      ensures schema == s && store == db && levels == cacheLevels
    {
      if t != Nil { ReopenDenotes(s, db.D(), t); }
      schema, store, levels := s, db, cacheLevels;
      st := new Encoder();
      h := new HashEncoder();
      root := if rootHash.Some? then HashLink(rootHash.value) else NilLink;
      trie := t;
    }

    /** The hex key in the writer's buffer. */
    method WriteKey(key: Bytes) returns (k: Path)
      requires |key| == HASH_LENGTH
      ensures k == HexKey(key)
    {
      var kbuf := new Byte[KEY_LENGTH];
      KeybytesToHex(key, kbuf);
      k := kbuf[..];
    }

    method Put(key: Bytes, v: Bytes)
      requires Valid() && |key| == HASH_LENGTH && v != []
      modifies this, Repr(root)
      ensures Valid() && fresh(Repr(root) - old(Repr(root)))
      ensures IsKey(HexKey(key), KEY_LENGTH) && trie == Apply(old(trie), TrieMap.Put(HexKey(key), v))
      ensures NoStray(store.values, old(trie)) ==> NoStray(store.values, trie)
    {
      hide Denotes, Stored, Insert, Canonical, IsKey, NoStray;
      HexKeyIsKey(key);
      var k := WriteKey(key);
      ghost var t := trie;
      InsertCanonical(t, k, v);
      assert k[..0] == [] && k[0..] == k;
      root := MptInsert(schema, store.D(), root, k, 0, v, t);
      trie := Insert(t, k, v);
      PutHasNoStray(store.values, t, k, v);
    }

    /** The panic `mpt_del_not_found` is recovered: a miss changes no contents. */
    method Delete(key: Bytes)
      requires Valid() && |key| == HASH_LENGTH
      modifies this, store, Repr(root)
      ensures Valid() && fresh(Repr(root) - old(Repr(root)))
      ensures store.nodes == old(store.nodes)
      ensures IsKey(HexKey(key), KEY_LENGTH) && trie == Apply(old(trie), TrieMap.Delete(HexKey(key)))
      ensures NoStray(old(store.values), old(trie)) ==> NoStray(store.values, trie)
    {
      hide Denotes, Stored, Remove, Canonical, Get, NoStray;
      HexKeyIsKey(key);
      var k := WriteKey(key);
      ghost var t := trie;
      RemoveCanonical(t, k);
      assert k[..0] == [] && k[0..] == k;
      var found, l := MptDel(schema, store.D(), root, k, 0, t);
      if found {
        GetRemove(t, k, k);
        DeleteHasNoStray(store.values, t, k);
        Forget(k, l, Remove(t, k).value);
      }
    }

    /** Either of the two; None deletes. */
    method Write(key: Bytes, val: Option<Bytes>)
      requires Valid() && |key| == HASH_LENGTH && val != Some([])
      modifies this, store, Repr(root)
      ensures Valid() && fresh(Repr(root) - old(Repr(root)))
      ensures store.nodes == old(store.nodes) && trie == Apply(old(trie), HexWrite(key, val))
      ensures NoStray(old(store.values), old(trie)) ==> NoStray(store.values, trie)
    {
      hide Denotes, Stored, Canonical, NoStray, IsKey, HexKey, Apply, ValidLink, View;
      if val.Some? { Put(key, val.value); } else { Delete(key); }
    }

    /** The new root after a deletion, and the nil value for the key. */
    method Forget(k: Path, l: Link, ghost t: Trie)
      requires {this, store, st, h, h.encoder} !! Repr(l) && h.encoder != st && ValidLink(l)
      requires Canonical(t, KEY_LENGTH) && Denotes(schema, store.D(), [], View(l), t) && Get(t, k) == None
      modifies this, store
      ensures Valid() && root == l && trie == t
      ensures store.nodes == old(store.nodes) && store.values == old(store.values) - {k}
    {
      hide Denotes, Canonical, Get;
      ghost var db := store.D();
      assert k[0..] == k;
      DenotesWithout(schema, db, k, [], View(l), t);
      root, trie := l, t;
      store.PutValue(k, None);
    }

    /** `Commit`.  `M` fixes the content of every hash in use: Keccak does not collide on the
        nodes in the database and those of this trie. */
    method Commit(ghost M: map<Hash, Bytes>) returns (hash: Option<Hash>)
      requires Valid() && ValuesFit(schema, trie)
      requires NodesIn(schema, M, trie) && (trie != Nil ==> Bound(schema, M, trie, true)) && Within(store.nodes, M)
      modifies this, store, st, h, h.encoder, Repr(root)
      ensures Valid() && Repr(root) <= old(Repr(root)) && trie == old(trie)
      ensures hash == RootHash(schema, trie)
      ensures Stored(schema, store.D(), [], trie)
      ensures Within(old(store.nodes), store.nodes) && Within(store.nodes, M)
      ensures NoStray(old(store.values), trie) ==> NoStray(store.values, trie)
    {
      hide Stored, NodesIn, ValuesInDb, Canonical, ValuesFit, NoStray, Fills, Denotes, Appended, HashStep, Settled, Bound, HashOf, Quiet, StoreForm;
      RootStands(schema, store.D(), View(root), trie);
      if root.NilLink? {
        return None;
      }
      CachedHashOfView(root);
      var known := CachedHash(root);
      if known.Some? {
        return known;
      }
      st.Reset();
      h.Reset();
      ghost var values := store.values;
      root := TrieCommit.Commit(schema, store, st, h, levels, 0, [], root, trie, M);
      RootStands(schema, store.D(), View(root), trie);
      CachedHashOfView(root);
      hash := CachedHash(root);
      if NoStray(values, trie) { FilledHasNoStray(values, store.values, trie); }
    }
  }

  lemma PutHasNoStray(values: map<Path, Bytes>, t: Trie, k: Path, v: Bytes)
    requires Canonical(t, KEY_LENGTH) && IsKey(k, KEY_LENGTH)
    ensures NoStray(values, t) ==> NoStray(values, Insert(t, k, v))
  {
    hide Canonical, Insert, Get, Nibbles;
    if NoStray(values, t) {
      forall q | q in values ensures Get(Insert(t, k, v), q).Some? {
        GetInsert(t, k, v, q);
      }
    }
  }

  lemma DeleteHasNoStray(values: map<Path, Bytes>, t: Trie, k: Path)
    requires Canonical(t, KEY_LENGTH) && IsKey(k, KEY_LENGTH) && Remove(t, k).Some?
    ensures NoStray(values, t) ==> NoStray(values - {k}, Remove(t, k).value)
  {
    hide Canonical, Remove, Get, Nibbles;
    if NoStray(values, t) {
      forall q | q in values - {k} ensures Get(Remove(t, k).value, q).Some? {
        GetRemove(t, k, q);
      }
    }
  }

  /** `get_hash`. */
  function CachedHash(l: Link): (h: Option<Hash>)
    requires !l.NilLink? && !l.ValueLink?
    reads Head(l)
  {
    match l
    case HashLink(h) => Some(h)
    case ShortLink(n) => n.hash
    case FullLink(n) => n.hash
  }

  lemma CachedHashOfView(l: Link)
    requires ValidLink(l) && !l.NilLink? && !l.ValueLink?
    ensures CachedHash(l) == if l.HashLink? then Some(View(l).hash) else View(l).cachedHash
  {
  }

  /** What a root node says about its trie. */
  lemma RootStands(s: Schema, db: Db, n: Node, t: Trie)
    requires Denotes(s, db, [], n, t)
    ensures !n.Value? && (n.NoNode? <==> t == Nil)
    ensures n.NoNode? ==> Stored(s, db, [], t)
    ensures n.HashRef? ==> n.hash == HashOf(s, t) && Stored(s, db, [], t)
    ensures (n.Short? || n.Full?) && n.cachedHash.Some? ==> n.cachedHash.value == HashOf(s, t) && Stored(s, db, [], t)
  {
  }

  // ---------------------------------------------------------------------------------
  // Runs
  // ---------------------------------------------------------------------------------

  /** One call of a client; None deletes.  `Reopen` commits, drops the writer, and goes on
      with a new one on the committed root, with another `FullNodeLevelsToCache`. */
  datatype Step = Set(key: Bytes, val: Option<Bytes>) | Save | Reopen(levels: nat)

  predicate ValidStep(x: Step)
  {
    x.Set? ==> |x.key| == HASH_LENGTH && x.val != Some([])
  }

  /** A write by the hex form of its key. */
  function HexWrite(key: Bytes, val: Option<Bytes>): (w: Write)
    requires |key| == HASH_LENGTH && val != Some([])
    ensures ValidWrite(w)
  {
    HexKeyIsKey(key);
    if val.Some? then TrieMap.Put(HexKey(key), val.value) else TrieMap.Delete(HexKey(key))
  }

  /** The writes among the steps. */
  function Writes(steps: seq<Step>): (ws: seq<Write>)
    requires forall i :: 0 <= i < |steps| ==> ValidStep(steps[i])
    ensures forall i :: 0 <= i < |ws| ==> ValidWrite(ws[i])
    decreases |steps|
  {
    if steps == [] then []
    else
      var last := steps[|steps| - 1];
      assert ValidStep(last);
      var front := Writes(steps[..|steps| - 1]);
      if !last.Set? then front
      else front + [HexWrite(last.key, last.val)]
  }

  /** The trie a run of steps must lead to. */
  function TrieAfter(steps: seq<Step>): (t: Trie)
    requires forall i :: 0 <= i < |steps| ==> ValidStep(steps[i])
    ensures Canonical(t, KEY_LENGTH)
  {
    TrieMap.Run(Writes(steps))
  }

  /** M has the nodes of a trie: no two of them, nor anything else in M, collide. */
  ghost predicate Covers(s: Schema, M: map<Hash, Bytes>, t: Trie)
  {
    ValuesFit(s, t) && NodesIn(s, M, t) && (t != Nil ==> Bound(s, M, t, true))
  }

  lemma TrieAfterStep(steps: seq<Step>, i: nat)
    requires i < |steps| && forall j :: 0 <= j < |steps| ==> ValidStep(steps[j])
    ensures var t := TrieAfter(steps[..i]);
            TrieAfter(steps[..i + 1]) ==
            match steps[i]
            case Set(key, val) => Apply(t, HexWrite(key, val))
            case _ => t
  {
    var front := steps[..i + 1];
    assert front[..i] == steps[..i] && front[i] == steps[i];
    if steps[i].Set? {
      var w := Writes(front);
      assert w[..|w| - 1] == Writes(steps[..i]);
    }
  }

  /** Every run, with commits and reopenings anywhere in between and under any cache limits,
      ends with the root hash of the trie its writes alone lead to, and that trie can be read
      back from the database. */
  method Replay(s: Schema, store: Database, levels: nat, steps: seq<Step>, ghost M: map<Hash, Bytes>) returns (hash: Option<Hash>)
    requires forall i :: 0 <= i < |steps| ==> ValidStep(steps[i])
    requires forall i :: 0 <= i <= |steps| ==> Covers(s, M, TrieAfter(steps[..i]))
    requires Within(store.nodes, M)
    modifies store
    ensures hash == RootHash(s, TrieAfter(steps))
    ensures Stored(s, store.D(), [], TrieAfter(steps))
    ensures old(store.values) == map[] ==> store.values == RunMap(Writes(steps))
  {
    hide Denotes, Stored, NodesIn, ValuesFit, Canonical, Bound, Apply, ValidLink, View, NoStray, RunMap, IsKey, HexKey, ValidWrite;
    EmptyIsStored(s, store.D());
    var w := new Writer(s, store, None, levels, Nil);
    var i: nat := 0;
    while i < |steps|
      invariant i <= |steps| && w.Valid() && w.schema == s && w.store == store
      invariant fresh(w) && fresh(w.st) && fresh(w.h) && fresh(w.h.encoder) && fresh(Repr(w.root))
      invariant w.trie == TrieAfter(steps[..i]) && Within(store.nodes, M)
      invariant old(store.values) == map[] ==> NoStray(store.values, w.trie)
    {
      TrieAfterStep(steps, i);
      var x := steps[i];
      if x.Set? {
        w.Write(x.key, x.val);
      } else {
        var root := w.Commit(M);
        if x.Reopen? {
          w := new Writer(s, store, root, x.levels, w.trie);
        }
      }
      i := i + 1;
    }
    assert steps[..|steps|] == steps;
    hash := w.Commit(M);
    if old(store.values) == map[] { TableIsRunMap(s, store.D(), Writes(steps)); }
  }

  /** The value table at the end of a run. */
  lemma TableIsRunMap(s: Schema, db: Db, history: seq<Write>)
    requires forall i :: 0 <= i < |history| ==> ValidWrite(history[i])
    requires Stored(s, db, [], TrieMap.Run(history)) && NoStray(db.values, TrieMap.Run(history))
    ensures db.values == RunMap(history)
  {
    RunRefinesMap(history);
    RunMapKeys(history);
    TableIsMap(db.values, TrieMap.Run(history), RunMap(history));
  }

  lemma {:induction false} RunMapKeys(history: seq<Write>)
    requires forall i :: 0 <= i < |history| ==> ValidWrite(history[i])
    ensures forall q :: q in RunMap(history) ==> IsKey(q, KEY_LENGTH)
    decreases |history|
  {
    if history != [] { RunMapKeys(history[..|history| - 1]); }
  }

  lemma EmptyIsStored(s: Schema, db: Db)
    ensures Stored(s, db, [], Nil) && Canonical(Nil, KEY_LENGTH) && RootHash(s, Nil) == None && NoStray(map[], Nil)
  {
  }

  /** Histories with the same final contents end with the same root. */
  lemma SameContentsSameRoot(s: Schema, a: seq<Step>, b: seq<Step>)
    requires forall i :: 0 <= i < |a| ==> ValidStep(a[i])
    requires forall i :: 0 <= i < |b| ==> ValidStep(b[i])
    requires RunMap(Writes(a)) == RunMap(Writes(b))
    ensures RootHash(s, TrieAfter(a)) == RootHash(s, TrieAfter(b))
  {
    HistoryIndependence(Writes(a), Writes(b));
  }

  // =================================================================================
  // `for_each` of ebla/trie/reader.go: the enumeration of a trie's contents, of which parts may
  // only be hashes.
  // =================================================================================

  type Binding = (Path, Bytes)

  /** The bindings of a trie below `prefix`, in the order of the walk. */
  function Contents(prefix: Path, t: Trie): (r: seq<Binding>)
    decreases t, 0
  {
    match t
    case Nil => []
    case Leaf(key, val) => [(prefix + key, val)]
    case Ext(key, child) => Contents(prefix + key, child)
    case Branch(children) => if |children| == ARITY then ContentsOf(prefix, children, 0) else []
  }

  /** The bindings of the children from i on. */
  function ContentsOf(prefix: Path, children: seq<Trie>, i: nat): (r: seq<Binding>)
    requires |children| == ARITY && i <= ARITY
    decreases children, ARITY - i
  {
    if i == ARITY then [] else Contents(prefix + [i], children[i]) + ContentsOf(prefix, children, i + 1)
  }

  // ---------------------------------------------------------------------------------
  // Every binding exactly once, in key order
  // ---------------------------------------------------------------------------------

  /** The order of keys by their first difference. */
  predicate Before(a: Path, b: Path)
  {
    var m := CommonPrefix(a, b);
    m < |a| && m < |b| && a[m] < b[m]
  }

  predicate Ascending(r: seq<Binding>)
  {
    forall i, j :: 0 <= i < j < |r| ==> Before(r[i].0, r[j].0)
  }

  predicate Under(prefix: Path, r: seq<Binding>)
  {
    forall i :: 0 <= i < |r| ==> prefix <= r[i].0
  }

  lemma UnderShorter(prefix: Path, k: Path, r: seq<Binding>)
    requires Under(prefix + k, r)
    ensures Under(prefix, r)
  {
    forall i | 0 <= i < |r| ensures prefix <= r[i].0 {
      assert prefix == (prefix + k)[..|prefix|] == r[i].0[..|prefix|];
    }
  }

  lemma {:induction false} ContentsUnder(prefix: Path, t: Trie)
    ensures Under(prefix, Contents(prefix, t))
    decreases t, 0
  {
    match t
    case Nil =>
    case Leaf(key, _) =>
      assert prefix <= prefix + key;
    case Ext(key, child) =>
      ContentsUnder(prefix + key, child);
      UnderShorter(prefix, key, Contents(prefix, t));
    case Branch(children) =>
      if |children| == ARITY { ContentsOfUnder(prefix, children, 0); }
  }

  lemma {:induction false} ContentsOfUnder(prefix: Path, children: seq<Trie>, i: nat)
    requires |children| == ARITY && i <= ARITY
    ensures Under(prefix, ContentsOf(prefix, children, i))
    ensures forall k :: 0 <= k < |ContentsOf(prefix, children, i)| ==>
              |ContentsOf(prefix, children, i)[k].0| > |prefix| && ContentsOf(prefix, children, i)[k].0[|prefix|] >= i
    decreases children, ARITY - i
  {
    if i < ARITY {
      var r := Contents(prefix + [i], children[i]);
      ContentsUnder(prefix + [i], children[i]);
      UnderShorter(prefix, [i], r);
      forall k | 0 <= k < |r| ensures |r[k].0| > |prefix| && r[k].0[|prefix|] == i {
        assert r[k].0[|prefix|] == (prefix + [i])[|prefix|];
      }
      ContentsOfUnder(prefix, children, i + 1);
    }
  }

  lemma {:induction false} ContentsAscend(prefix: Path, t: Trie)
    ensures Ascending(Contents(prefix, t))
    decreases t, 0
  {
    match t
    case Nil =>
    case Leaf(_, _) =>
    case Ext(key, child) => ContentsAscend(prefix + key, child);
    case Branch(children) =>
      if |children| == ARITY { ContentsOfAscend(prefix, children, 0); }
  }

  lemma {:induction false} ContentsOfAscend(prefix: Path, children: seq<Trie>, i: nat)
    requires |children| == ARITY && i <= ARITY
    ensures Ascending(ContentsOf(prefix, children, i))
    decreases children, ARITY - i
  {
    if i < ARITY {
      var r, rest := Contents(prefix + [i], children[i]), ContentsOf(prefix, children, i + 1);
      ContentsAscend(prefix + [i], children[i]);
      ContentsOfAscend(prefix, children, i + 1);
      ContentsUnder(prefix + [i], children[i]);
      ContentsOfUnder(prefix, children, i + 1);
      forall j, k | 0 <= j < |r| && 0 <= k < |rest| ensures Before(r[j].0, rest[k].0) {
        var a, b := r[j].0, rest[k].0;
        assert a[..|prefix|] == (prefix + [i])[..|prefix|] == prefix == b[..|prefix|];
        assert a[|prefix|] == (prefix + [i])[|prefix|];
        CommonPrefixUnique(a, b, |prefix|);
      }
    }
  }

  /** A key is enumerated with a value exactly when the trie has that value for it. */
  lemma {:induction false} ContentsAreGet(prefix: Path, t: Trie, length: nat, k: Path, v: Bytes)
    requires Canonical(t, length)
    ensures (k, v) in Contents(prefix, t) <==> prefix <= k && Get(t, k[|prefix|..]) == Some(v)
    decreases t, 0
  {
    match t
    case Nil =>
    case Leaf(key, _) =>
      assert prefix <= k ==> k == prefix + k[|prefix|..];
    case Ext(key, child) =>
      ContentsAreGet(prefix + key, child, length - |key|, k, v);
      PrefixOfSum(prefix, key, k);
    case Branch(children) =>
      ContentsOfAreGet(prefix, t, length, 0, k, v);
  }

  lemma PrefixOfSum(p: Path, s: Path, k: Path)
    ensures p + s <= k <==> p <= k && s <= k[|p|..]
    ensures p + s <= k ==> k[|p|..][|s|..] == k[|p + s|..]
  {
    if p + s <= k {
      assert p == (p + s)[..|p|] == k[..|p|];
      assert s == (p + s)[|p|..] == k[|p|..][..|s|];
    }
    if p <= k && s <= k[|p|..] {
      assert k == p + k[|p|..] == p + (s + k[|p|..][|s|..]);
    }
  }

  lemma {:induction false} ContentsOfAreGet(prefix: Path, t: Trie, length: nat, i: nat, k: Path, v: Bytes)
    requires t.Branch? && Canonical(t, length) && i <= ARITY
    ensures (k, v) in ContentsOf(prefix, t.children, i) <==>
            prefix < k && i <= k[|prefix|] && Get(t, k[|prefix|..]) == Some(v)
    decreases t.children, ARITY - i
  {
    if i < ARITY {
      var r, rest := Contents(prefix + [i], t.children[i]), ContentsOf(prefix, t.children, i + 1);
      ContentsAreGet(prefix + [i], t.children[i], length - 1, k, v);
      ContentsOfAreGet(prefix, t, length, i + 1, k, v);
      PrefixOfSum(prefix, [i], k);
      assert (k, v) in ContentsOf(prefix, t.children, i) <==> (k, v) in r || (k, v) in rest;
    }
  }

  // ---------------------------------------------------------------------------------
  // The walk
  // ---------------------------------------------------------------------------------

  /** What a callback gets: the key's bytes and, unless it was not asked for, the value. */
  datatype Call = Call(key: Bytes, val: Option<Bytes>)

  /** The calls made for the bindings r. */
  ghost predicate Matches(calls: seq<Call>, r: seq<Binding>, withValues: bool)
  {
    |calls| == |r| &&
    forall i :: 0 <= i < |r| ==>
      calls[i].key == Pack(Body(r[i].0)) &&
      (withValues ==> calls[i].val == Some(r[i].1)) &&
      (calls[i].val.Some? ==> calls[i].val.value == r[i].1)
  }

  /** `for_each`; None is the panic on a nil node. */
  method ForEach(s: Schema, db: Db, n: Node, withValues: bool, prefix: Path, ghost t: Trie) returns (calls: Option<seq<Call>>)
    requires |prefix| <= KEY_LENGTH && Canonical(t, KEY_LENGTH - |prefix|)
    requires Denotes(s, db, prefix, n, t)
    ensures calls.None? <==> t == Nil
    ensures calls.Some? ==> Matches(calls.value, Contents(prefix, t), withValues)
    decreases t, if n.HashRef? then 2 else 1
  {
    if n.HashRef? {
      ResolveDenotes(s, db, prefix, n.hash, t, KEY_LENGTH - |prefix|);
      var r := Resolve(s, db, prefix, n.hash);
      calls := ForEach(s, db, r.value, withValues, prefix, t);
    } else if n.Short? {
      if n.val.Value? {
        calls := Some([ForLeaf(db, prefix + n.key, n.val.cell, withValues, t.val)]);
      } else {
        calls := ForEach(s, db, n.val, withValues, prefix + n.key, t.child);
      }
    } else if n.Full? {
      var all := ForChildren(s, db, n.children, n.cachedHash, withValues, prefix, t);
      calls := Some(all);
    } else {
      calls := None;
    }
  }

  function ForLeaf(db: Db, key: Path, cell: Cell, withValues: bool, ghost val: Bytes): (c: Call)
    requires CellOk(db, key, cell, val)
    ensures Matches([c], [(key, val)], withValues)
  {
    Call(Pack(Body(key)),
         if !cell.Absent? then Some(cell.val) else if withValues then Some(db.values[key]) else None)
  }

  lemma MatchesThen(a: seq<Call>, r: seq<Binding>, b: seq<Call>, q: seq<Binding>, withValues: bool)
    requires Matches(a, r, withValues) && Matches(b, q, withValues)
    ensures Matches(a + b, r + q, withValues)
  {
  }

  lemma NoNodeIsNil(s: Schema, db: Db, prefix: Path, n: Node, t: Trie)
    requires Denotes(s, db, prefix, n, t)
    ensures n.NoNode? <==> t == Nil
  {
  }

  method ForChildren(s: Schema, db: Db, children: seq<Node>, ghost h: Option<Hash>, withValues: bool, prefix: Path, ghost t: Trie)
      returns (calls: seq<Call>)
    requires |prefix| < KEY_LENGTH && Canonical(t, KEY_LENGTH - |prefix|)
    requires Denotes(s, db, prefix, Full(children, h), t)
    ensures Matches(calls, Contents(prefix, t), withValues)
    decreases t, 0
  {
    hide Denotes, Stored, Matches;
    ChildDenotes(s, db, children, h, prefix, t);
    calls := [];
    ghost var done: seq<Binding> := [];
    assert Matches(calls, done, withValues) by { NoCalls(withValues); }
    for i := 0 to ARITY
      invariant Matches(calls, done, withValues)
      invariant Contents(prefix, t) == done + ContentsOf(prefix, t.children, i)
    {
      ghost var u := t.children[i];
      NoNodeIsNil(s, db, prefix + [i], children[i], u);
      if !children[i].NoNode? {
        var c := ForEach(s, db, children[i], withValues, prefix + [i], u);
        MatchesThen(calls, done, c.value, Contents(prefix + [i], u), withValues);
        calls := calls + c.value;
      }
      assert done + ContentsOf(prefix, t.children, i) ==
             (done + Contents(prefix + [i], u)) + ContentsOf(prefix, t.children, i + 1);
      assert u == Nil ==> done + Contents(prefix + [i], u) == done;
      done := done + Contents(prefix + [i], u);
    }
    assert ContentsOf(prefix, t.children, ARITY) == [];
    assert done + [] == done;
  }

  lemma NoCalls(withValues: bool)
    ensures Matches([], [], withValues)
  {
  }
}
