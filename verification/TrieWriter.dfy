/** Insertion and deletion of ebla/trie/writer.go on mutable nodes, after the steps on values they
    consist of: what a rebuilt node stands for when its parts are known. */
module TrieWriter {
  import opened Wrappers
  import opened Rlp
  import opened Trie
  import opened TrieMap
  import opened TrieNode
  import opened TrieHeap

  /** The part of `Denotes` for short nodes that does not speak of the cached hash. */
  ghost predicate ShortBody(s: Schema, db: Db, prefix: Path, key: Path, val: Node, t: Trie)
  {
    if val.Value? then t.Leaf? && t.key == key && CellOk(db, prefix + key, val.cell, t.val)
    else t.Ext? && t.key == key && Denotes(s, db, prefix + key, val, t.child)
  }

  lemma BodyOfShort(s: Schema, db: Db, prefix: Path, n: Node, t: Trie)
    requires n.Short? && Denotes(s, db, prefix, n, t)
    ensures ShortBody(s, db, prefix, n.key, n.val, t)
    ensures n.val.Value? && n.val.cell.Absent? ==> n.cachedHash.Some?
  {
  }

  /** The children of a full node stand for those of its branch. */
  lemma ChildDenotes(s: Schema, db: Db, children: seq<Node>, h: Option<Hash>, prefix: Path, t: Trie)
    requires Denotes(s, db, prefix, Full(children, h), t)
    ensures t.Branch? && |t.children| == |children| == ARITY
    ensures forall i :: 0 <= i < ARITY ==> Denotes(s, db, prefix + [i], children[i], t.children[i])
  {
  }

  /** Replacing one child and dropping the cached hash. */
  lemma ReplaceDenotes(s: Schema, db: Db, prefix: Path, cs: seq<Node>, h: Option<Hash>, t: Trie, i: nat, c: Node, u: Trie)
    requires Denotes(s, db, prefix, Full(cs, h), t) && i < ARITY
    requires Denotes(s, db, prefix + [i], c, u)
    ensures Denotes(s, db, prefix, Full(cs[i := c], None), Branch(t.children[i := u]))
  {
  }

  /** A child that changed its node but not its trie leaves the cached hash valid. */
  lemma SameChildDenotes(s: Schema, db: Db, prefix: Path, cs: seq<Node>, h: Option<Hash>, t: Trie, i: nat, c: Node)
    requires Denotes(s, db, prefix, Full(cs, h), t) && i < ARITY
    requires Denotes(s, db, prefix + [i], c, t.children[i])
    ensures Denotes(s, db, prefix, Full(cs[i := c], h), t)
  {
  }

  /** The two children of a new junction. */
  lemma JunctionDenotes(s: Schema, db: Db, prefix: Path, i: Byte, a: Node, t: Trie, j: Byte, b: Node, u: Trie)
    requires i < ARITY && j < ARITY && i != j
    requires Denotes(s, db, prefix + [i], a, t) && Denotes(s, db, prefix + [j], b, u)
    ensures Denotes(s, db, prefix, Full(seq(ARITY, _ => NoNode)[i := a][j := b], None),
                    Branch(NoChildren()[i := t][j := u]))
  {
    var ns := seq(ARITY, _ => NoNode)[i := a][j := b];
    var ts := NoChildren()[i := t][j := u];
    forall x | 0 <= x < ARITY ensures Denotes(s, db, prefix + [x], ns[x], ts[x]) {
    }
  }

  /** A short node cut to the part behind the pivot, or its child when nothing is left. */
  lemma ShiftDenotes(s: Schema, db: Db, prefix: Path, key: Path, val: Node, t: Trie, m: nat)
    requires ShortBody(s, db, prefix, key, val, t) && m < |key|
    requires val.Value? ==> !val.cell.Absent? && m + 1 < |key|
    ensures var low := key[m + 1..];
            Denotes(s, db, prefix + key[..m] + [key[m]],
                    if low == [] then val else Short(low, val, None), ShiftDown(t, low))
  {
    var low := key[m + 1..];
    assert prefix + key[..m] + [key[m]] + low == prefix + key;
    if low == [] { assert prefix + key[..m] + [key[m]] == prefix + key; }
  }

  /** Putting nibbles in front of a node: short nodes absorb them, branches get an extension. */
  lemma PrependDenotes(s: Schema, db: Db, prefix: Path, k: Path, n: Node, t: Trie)
    requires Denotes(s, db, prefix + k, n, t) && k != [] && t != Nil
    requires n.Short? ==> !(n.val.Value? && n.val.cell.Absent?)
    ensures Denotes(s, db, prefix, if n.Short? then Short(k + n.key, n.val, None) else Short(k, n, None), Prepend(k, t))
  {
    if n.Short? {
      assert prefix + k + n.key == prefix + (k + n.key);
    }
  }

  // ---------------------------------------------------------------------------------
  // Insertion along a key
  // ---------------------------------------------------------------------------------

  /** Walking into the child of a full node. */
  lemma DescendBranch(s: Schema, db: Db, n: Node, t: Trie, key: Path, keypos: nat)
    requires IsKey(key, KEY_LENGTH) && keypos < KEY_LENGTH
    requires n.Full? && Canonical(t, KEY_LENGTH - keypos) && Denotes(s, db, key[..keypos], n, t)
    ensures keypos + 1 < KEY_LENGTH && key[keypos] < ARITY && t.Branch? && |t.children| == |n.children| == ARITY
    ensures Canonical(t.children[key[keypos]], KEY_LENGTH - keypos - 1)
    ensures Denotes(s, db, key[..keypos + 1], n.children[key[keypos]], t.children[key[keypos]])
    ensures IsKey(key[keypos..], KEY_LENGTH - keypos) && IsKey(key[keypos + 1..], KEY_LENGTH - keypos - 1)
    ensures key[keypos..][0] == key[keypos] && key[keypos..][1..] == key[keypos + 1..]
    ensures key[..keypos] + [key[keypos]] == key[..keypos + 1]
  {
    KeySuffix(key, keypos);
    KeyHead(key[keypos..]);
    assert key[keypos..][1..] == key[keypos + 1..];
    assert key[..keypos] + [key[keypos]] == key[..keypos + 1];
  }

  /** Insertion below a child of a full node. */
  lemma InsertFullDenotes(s: Schema, db: Db, n: Node, t: Trie, key: Path, keypos: nat, v: Bytes, c: Node)
    requires IsKey(key, KEY_LENGTH) && keypos + 1 < KEY_LENGTH && key[keypos] < ARITY
    requires IsKey(key[keypos..], KEY_LENGTH - keypos) && IsKey(key[keypos + 1..], KEY_LENGTH - keypos - 1)
    requires n.Full? && Canonical(t, KEY_LENGTH - keypos) && Denotes(s, db, key[..keypos], n, t)
    requires Denotes(s, db, key[..keypos + 1], c, Insert(t.children[key[keypos]], key[keypos + 1..], v))
    ensures Denotes(s, db, key[..keypos], Full(n.children[key[keypos] := c], None), Insert(t, key[keypos..], v))
  {
    DescendBranch(s, db, n, t, key, keypos);
    ReplaceDenotes(s, db, key[..keypos], n.children, n.cachedHash, t, key[keypos], c,
                   Insert(t.children[key[keypos]], key[keypos + 1..], v));
  }

  /** Walking past a matched key part. */
  lemma DescendExt(key: Path, keypos: nat, t: Trie)
    requires IsKey(key, KEY_LENGTH) && keypos < KEY_LENGTH
    requires Canonical(t, KEY_LENGTH - keypos) && t.Ext? && CommonPrefix(key[keypos..], t.key) == |t.key|
    ensures var after := keypos + |t.key|;
            after < KEY_LENGTH && key[..keypos] + t.key == key[..after] &&
            key[keypos..][|t.key|..] == key[after..] && IsKey(key[after..], KEY_LENGTH - after)
  {
    var after := keypos + |t.key|;
    KeySuffix(key, after);
    assert key[keypos..][..|t.key|] == t.key;
    assert key[..keypos] + t.key == key[..after];
  }

  /** Insertion below an extension whose key part is matched. */
  lemma InsertExtDenotes(s: Schema, db: Db, key: Path, keypos: nat, t: Trie, v: Bytes, c: Node)
    requires IsKey(key, KEY_LENGTH) && keypos < KEY_LENGTH && IsKey(key[keypos..], KEY_LENGTH - keypos)
    requires Canonical(t, KEY_LENGTH - keypos) && t.Ext? && CommonPrefix(key[keypos..], t.key) == |t.key|
    requires var after := keypos + |t.key|;
             after < KEY_LENGTH && IsKey(key[after..], KEY_LENGTH - after) &&
             Denotes(s, db, key[..after], c, Insert(t.child, key[after..], v))
    ensures Denotes(s, db, key[..keypos], Short(t.key, c, None), Insert(t, key[keypos..], v))
  {
    DescendExt(key, keypos, t);
  }

  /** A split at the first symbol where the key leaves the key part; `junction` is the new
      full node. */
  lemma InsertSplitDenotes(s: Schema, db: Db, prefix: Path, t: Trie, p: Path, v: Bytes, m: nat, junction: Node)
    requires IsKey(p, |p|) && Canonical(t, |p|) && (t.Leaf? || t.Ext?)
    requires m == CommonPrefix(p, t.key) < |t.key| && p != t.key
    requires m < |p| && p[m] < 16 && t.key[m] < 16
    requires junction.Full?
    requires Denotes(s, db, prefix + p[..m], junction,
                     Branch(NoChildren()[t.key[m] := ShiftDown(t, t.key[m + 1..])][p[m] := Leaf(p[m + 1..], v)]))
    ensures Denotes(s, db, prefix, if m == 0 then junction else Short(p[..m], junction, None), Insert(t, p, v))
  {
    assert m == 0 ==> prefix + p[..m] == prefix;
    assert Insert(t, p, v) == Split(t, p, v, m);
  }

  /** A new leaf in an empty place; values are never in the place of a node. */
  lemma NewLeafDenotes(s: Schema, db: Db, prefix: Path, n: Node, t: Trie, p: Path, v: Bytes)
    requires IsKey(p, |p|) && Canonical(t, |p|) && Denotes(s, db, prefix, n, t)
    requires n.NoNode? || n.Value?
    ensures Denotes(s, db, prefix, Short(p, Value(Raw(v)), None), Insert(t, p, v))
  {
  }

  /** Where there is no node there is nothing to remove. */
  lemma NothingToRemove(s: Schema, db: Db, prefix: Path, n: Node, t: Trie, p: Path)
    requires IsKey(p, |p|) && Canonical(t, |p|) && Denotes(s, db, prefix, n, t)
    ensures n.NoNode? || n.Value? ==> Remove(t, p) == None
  {
  }

  lemma InsertLeafDenotes(s: Schema, db: Db, prefix: Path, t: Trie, p: Path, v: Bytes)
    requires IsKey(p, |p|) && Canonical(t, |p|) && t.Leaf? && CommonPrefix(p, t.key) == |p|
    ensures Denotes(s, db, prefix, Short(t.key, Value(Raw(v)), None), Insert(t, p, v))
  {
  }

  // ---------------------------------------------------------------------------------
  // Deletion along a key
  // ---------------------------------------------------------------------------------

  /** The key leaves a short node, or ends at a leaf. */
  lemma RemoveShortEnds(t: Trie, key: Path, keypos: nat)
    requires IsKey(key, KEY_LENGTH) && keypos < KEY_LENGTH && IsKey(key[keypos..], KEY_LENGTH - keypos)
    requires Canonical(t, KEY_LENGTH - keypos) && (t.Leaf? || t.Ext?)
    ensures var m := CommonPrefix(key[keypos..], t.key);
            (m != |t.key| ==> Remove(t, key[keypos..]) == None) &&
            (m == |t.key| && keypos + m == KEY_LENGTH ==> t.Leaf? && Remove(t, key[keypos..]) == Some(Nil)) &&
            (m == |t.key| && keypos + m != KEY_LENGTH ==> t.Ext?)
  {
  }

  /** Deletion behind a matched extension: what is found below. */
  lemma RemoveExtResult(t: Trie, key: Path, keypos: nat)
    requires IsKey(key, KEY_LENGTH) && keypos < KEY_LENGTH && IsKey(key[keypos..], KEY_LENGTH - keypos)
    requires Canonical(t, KEY_LENGTH - keypos) && t.Ext? && CommonPrefix(key[keypos..], t.key) == |t.key|
    ensures var after := keypos + |t.key|;
            after < KEY_LENGTH && IsKey(key[after..], KEY_LENGTH - after) &&
            Remove(t, key[keypos..]) ==
            var below := Remove(t.child, key[after..]);
            if below.None? then None else Some(Prepend(t.key, below.value))
  {
    DescendExt(key, keypos, t);
  }

  /** The extension takes over the remaining node: short nodes are merged into it. */
  lemma RemoveExtDenotes(s: Schema, db: Db, key: Path, keypos: nat, t: Trie, c: Node)
    requires IsKey(key, KEY_LENGTH) && keypos < KEY_LENGTH && IsKey(key[keypos..], KEY_LENGTH - keypos)
    requires Canonical(t, KEY_LENGTH - keypos) && t.Ext? && CommonPrefix(key[keypos..], t.key) == |t.key|
    requires Remove(t, key[keypos..]).Some?
    requires var after := keypos + |t.key|;
             after < KEY_LENGTH && IsKey(key[after..], KEY_LENGTH - after) &&
             Remove(t.child, key[after..]).Some? &&
             Denotes(s, db, key[..after], c, Remove(t.child, key[after..]).value)
    requires c.Short? ==> c.cachedHash.None?
    ensures Denotes(s, db, key[..keypos], if c.Short? then Short(t.key + c.key, c.val, None) else Short(t.key, c, None),
                    Remove(t, key[keypos..]).value)
  {
    DescendExt(key, keypos, t);
    RemoveExtResult(t, key, keypos);
    var after := keypos + |t.key|;
    RemoveCanonical(t.child, key[after..]);
    PrependDenotes(s, db, key[..keypos], t.key, c, Remove(t.child, key[after..]).value);
  }

  /** A missed delete may have dropped cached hashes below; the extension drops its own. */
  lemma MissedExtDenotes(s: Schema, db: Db, prefix: Path, t: Trie, c: Node)
    requires t.Ext? && Denotes(s, db, prefix + t.key, c, t.child)
    ensures Denotes(s, db, prefix, Short(t.key, c, None), t)
  {
  }

  /** The child that deletion leaves alone in its branch. */
  function Survivor(t: Trie, nibble: nat, rest: Trie): (r: Option<nat>)
    requires t.Branch? && |t.children| == ARITY
  {
    if rest == Nil then OnlyChild(t.children, nibble) else None
  }

  lemma RemoveBranchResult(s: Schema, db: Db, n: Node, t: Trie, key: Path, keypos: nat)
    requires IsKey(key, KEY_LENGTH) && keypos < KEY_LENGTH && IsKey(key[keypos..], KEY_LENGTH - keypos)
    requires n.Full? && Canonical(t, KEY_LENGTH - keypos) && Denotes(s, db, key[..keypos], n, t)
    ensures keypos + 1 < KEY_LENGTH && key[keypos] < ARITY && t.Branch? && |t.children| == ARITY
    ensures IsKey(key[keypos + 1..], KEY_LENGTH - keypos - 1)
    ensures Canonical(t.children[key[keypos]], KEY_LENGTH - keypos - 1)
    ensures var below := Remove(t.children[key[keypos]], key[keypos + 1..]);
            (Remove(t, key[keypos..]).None? <==> below.None?) &&
            (below.Some? ==>
               var only := Survivor(t, key[keypos], below.value);
               (only.Some? ==> only.value < ARITY && only.value != key[keypos] && t.children[only.value] != Nil) &&
               Remove(t, key[keypos..]).value ==
               if only.None? then Branch(t.children[key[keypos] := below.value])
               else Prepend([only.value], t.children[only.value]))
  {
    DescendBranch(s, db, n, t, key, keypos);
    OnlyChildIsChild(t.children, key[keypos]);
  }

  /** The branch stays. */
  lemma RemoveFullDenotes(s: Schema, db: Db, n: Node, t: Trie, key: Path, keypos: nat, c: Node)
    requires IsKey(key, KEY_LENGTH) && keypos < KEY_LENGTH && IsKey(key[keypos..], KEY_LENGTH - keypos)
    requires n.Full? && Canonical(t, KEY_LENGTH - keypos) && Denotes(s, db, key[..keypos], n, t)
    requires keypos + 1 < KEY_LENGTH && key[keypos] < ARITY && t.Branch? && |t.children| == ARITY
    requires IsKey(key[keypos + 1..], KEY_LENGTH - keypos - 1) && Canonical(t.children[key[keypos]], KEY_LENGTH - keypos - 1)
    requires var below := Remove(t.children[key[keypos]], key[keypos + 1..]);
             below.Some? && Survivor(t, key[keypos], below.value).None? &&
             Denotes(s, db, key[..keypos + 1], c, below.value)
    ensures Remove(t, key[keypos..]).Some?
    ensures Denotes(s, db, key[..keypos], Full(n.children[key[keypos] := c], None), Remove(t, key[keypos..]).value)
  {
    DescendBranch(s, db, n, t, key, keypos);
    RemoveBranchResult(s, db, n, t, key, keypos);
    ReplaceDenotes(s, db, key[..keypos], n.children, n.cachedHash, t, key[keypos], c,
                   Remove(t.children[key[keypos]], key[keypos + 1..]).value);
  }

  /** A missed delete leaves the branch, and its cached hash, standing for the same trie. */
  lemma MissedFullDenotes(s: Schema, db: Db, n: Node, t: Trie, key: Path, keypos: nat, c: Node)
    requires IsKey(key, KEY_LENGTH) && keypos < KEY_LENGTH
    requires n.Full? && Canonical(t, KEY_LENGTH - keypos) && Denotes(s, db, key[..keypos], n, t)
    requires keypos + 1 < KEY_LENGTH && key[keypos] < ARITY && t.Branch? && |t.children| == |n.children| == ARITY
    requires Denotes(s, db, key[..keypos + 1], c, t.children[key[keypos]])
    ensures Denotes(s, db, key[..keypos], Full(n.children[key[keypos] := c], n.cachedHash), t)
  {
    assert key[..keypos] + [key[keypos]] == key[..keypos + 1];
    SameChildDenotes(s, db, key[..keypos], n.children, n.cachedHash, t, key[keypos], c);
  }

  /** A missing child is a missing node. */
  lemma NilIffNoNode(s: Schema, db: Db, prefix: Path, n: Node, t: Trie, i: nat)
    requires n.Full? && Denotes(s, db, prefix, n, t) && i < ARITY
    ensures |n.children| == ARITY && t.Branch? && |t.children| == ARITY
    ensures n.children[i].NoNode? <==> t.children[i] == Nil
    ensures Denotes(s, db, prefix + [i], n.children[i], t.children[i])
  {
  }

  /** The surviving child takes the place of its branch; a branch gets an extension. */
  lemma CollapseDenotes(s: Schema, db: Db, n: Node, t: Trie, key: Path, keypos: nat, only: nat, c: Node)
    requires IsKey(key, KEY_LENGTH) && keypos < KEY_LENGTH && IsKey(key[keypos..], KEY_LENGTH - keypos)
    requires n.Full? && Canonical(t, KEY_LENGTH - keypos) && Denotes(s, db, key[..keypos], n, t)
    requires keypos + 1 < KEY_LENGTH && key[keypos] < ARITY && t.Branch? && |t.children| == ARITY
    requires IsKey(key[keypos + 1..], KEY_LENGTH - keypos - 1) && Canonical(t.children[key[keypos]], KEY_LENGTH - keypos - 1)
    requires var below := Remove(t.children[key[keypos]], key[keypos + 1..]);
             below.Some? && Survivor(t, key[keypos], below.value) == Some(only)
    requires only < ARITY && Denotes(s, db, key[..keypos], c, Prepend([only], t.children[only]))
    ensures Remove(t, key[keypos..]).Some?
    ensures Denotes(s, db, key[..keypos], c, Remove(t, key[keypos..]).value)
  {
    RemoveBranchResult(s, db, n, t, key, keypos);
  }

  // =================================================================================
  // `mpt_insert`, `mpt_del` and `shift` of ebla/trie/writer.go on the mutable nodes.
  // =================================================================================

  // ---------------------------------------------------------------------------------
  // Building nodes from the database
  // ---------------------------------------------------------------------------------

  /** The objects `dec_short` and `dec_full` allocate for a decoded node. */
  method Build(s: Schema, db: Db, prefix: Path, n: Node, ghost t: Trie) returns (l: Link)
    requires Denotes(s, db, prefix, n, t)
    ensures ValidLink(l) && fresh(Repr(l)) && View(l) == n
    decreases n, 1
  {
    if n.NoNode? {
      l := NilLink;
    } else if n.HashRef? {
      l := HashLink(n.hash);
    } else if n.Short? {
      l := BuildShort(s, db, prefix, n, t);
    } else {
      ghost var owned;
      var cs: seq<Link>;
      cs, owned := BuildChildren(s, db, prefix, n.children, n.cachedHash, t);
      var node := new FullNode(cs, n.cachedHash, n.children, owned);
      l := FullLink(node);
    }
  }

  method BuildShort(s: Schema, db: Db, prefix: Path, n: Node, ghost t: Trie) returns (l: Link)
    requires n.Short? && Denotes(s, db, prefix, n, t)
    ensures ValidLink(l) && fresh(Repr(l)) && View(l) == n
    decreases n, 0
  {
    var v: Link;
    if n.val.Value? {
      v := ValueLink(n.val.cell);
    } else {
      v := Build(s, db, prefix + n.key, n.val, t.child);
    }
    var node := new ShortNode(n.key, v, n.cachedHash);
    l := ShortLink(node);
  }

  method BuildChildren(s: Schema, db: Db, prefix: Path, children: seq<Node>, ghost h: Option<Hash>, ghost t: Trie)
      returns (cs: seq<Link>, ghost owned: set<object>)
    requires Denotes(s, db, prefix, Full(children, h), t)
    ensures |cs| == ARITY && Apart(cs) && fresh(owned)
    ensures forall j :: 0 <= j < ARITY ==> ValidLink(cs[j]) && Repr(cs[j]) <= owned && View(cs[j]) == children[j]
    decreases children, 0
  {
    hide Denotes, Stored, NodesIn, ValuesInDb, ValidLink, View, Repr, Head;
    ChildDenotes(s, db, children, h, prefix, t);
    cs, owned := [], {};
    for i := 0 to ARITY
      invariant |cs| == i && fresh(owned)
      invariant forall j :: 0 <= j < i ==> ValidLink(cs[j])
      invariant forall j :: 0 <= j < i ==> Repr(cs[j]) <= owned
      invariant forall j :: 0 <= j < i ==> View(cs[j]) == children[j]
      invariant Apart(cs)
    {
      var c := Build(s, db, prefix + [i], children[i], t.children[i]);
      cs, owned := cs + [c], owned + Repr(c);
    }
  }

  /** `Writer.resolve`.  A missing or malformed entry panics; it is excluded by what the hash
      stands for. */
  method ResolveHash(s: Schema, db: Db, prefix: Path, h: Hash, ghost t: Trie) returns (l: Link)
    requires |prefix| <= KEY_LENGTH && Canonical(t, KEY_LENGTH - |prefix|)
    requires Denotes(s, db, prefix, HashRef(h), t)
    ensures ValidLink(l) && fresh(Repr(l)) && (l.ShortLink? || l.FullLink?)
    ensures Denotes(s, db, prefix, View(l), t)
    ensures l.FullLink? ==> View(l).cachedHash == Some(h)
  {
    ResolveDenotes(s, db, prefix, h, t, KEY_LENGTH - |prefix|);
    var n := Resolve(s, db, prefix, h);
    l := Build(s, db, prefix, n.value, t);
  }

  // ---------------------------------------------------------------------------------
  // Insertion
  // ---------------------------------------------------------------------------------

  /** `resolve_val_n` for the placeholder of a leaf whose full key is `key`. */
  function ResolveCell(db: Db, key: Path, cell: Cell): (c: Cell)
    requires cell.Absent? ==> key in db.values
  {
    if cell.Absent? then Cached(db.values[key]) else cell
  }

  /** `shift` downwards: the short node moves below the pivot of a new junction and keeps the
      rest of its key part; an extension left without key part is replaced by its child. */
  method ShiftDownNode(s: Schema, db: Db, n: ShortNode, prefix: Path, m: nat, ghost t: Trie) returns (l: Link)
    requires n.Valid() && m < |n.keyPart|
    requires ShortBody(s, db, prefix, n.keyPart, View(n.val), t)
    requires n.val.ValueLink? ==> m + 1 < |n.keyPart|
    requires n.hash.None?
    modifies n
    ensures ValidLink(l) && Repr(l) <= old(n.repr)
    ensures Denotes(s, db, prefix + old(n.keyPart)[..m] + [old(n.keyPart)[m]], View(l),
                    ShiftDown(t, old(n.keyPart)[m + 1..]))
  {
    var suffix := n.keyPart[m + 1..];
    if n.val.ValueLink? {
      n.val := ValueLink(ResolveCell(db, prefix + n.keyPart, n.val.cell));
    }
    ShiftDenotes(s, db, prefix, n.keyPart, View(n.val), t, m);
    if |suffix| == 0 {
      return n.val;
    }
    n.Set(suffix, n.val, None);
    return ShortLink(n);
  }

  /** A key leaves the key part of a short node: a junction takes its place, under an
      extension when the key parts share nibbles. */
  method SplitNode(s: Schema, db: Db, n: ShortNode, key: Path, keypos: nat, m: nat, v: Bytes, ghost t: Trie)
      returns (l: Link)
    requires n.Valid() && n.hash.None? && keypos < KEY_LENGTH == |key|
    requires IsKey(key[keypos..], KEY_LENGTH - keypos) && Canonical(t, KEY_LENGTH - keypos)
    requires ShortBody(s, db, key[..keypos], n.keyPart, View(n.val), t)
    requires m == CommonPrefix(key[keypos..], n.keyPart) < |n.keyPart| && key[keypos..] != n.keyPart
    requires keypos + m < KEY_LENGTH - 1 && key[keypos + m] < 16 && n.keyPart[m] < 16
    modifies n
    ensures ValidLink(l) && fresh(Repr(l) - old(n.repr))
    ensures Denotes(s, db, key[..keypos], View(l), Insert(t, key[keypos..], v))
  {
    hide Denotes, Stored, NodesIn, ValuesInDb;
    ghost var prefix, p := key[..keypos], key[keypos..];
    assert prefix + p[..m] == key[..keypos + m] == prefix + n.keyPart[..m] && p[..m] == key[keypos..keypos + m];
    assert p[m + 1..] == key[keypos + m + 1..] && p[m] == key[keypos + m];
    ghost var views: seq<Node>;
    var junction: FullNode;
    junction, views := SplitJunction(s, db, n, key, keypos, m, v, t);
    if m == 0 {
      l := FullLink(junction);
    } else {
      var top := new ShortNode(key[keypos..keypos + m], FullLink(junction), None);
      l := ShortLink(top);
    }
    InsertSplitDenotes(s, db, prefix, t, p, v, m, Full(views, None));
  }

  /** The new full node with the shifted short node and the new leaf. */
  method SplitJunction(s: Schema, db: Db, n: ShortNode, key: Path, keypos: nat, m: nat, v: Bytes, ghost t: Trie)
      returns (junction: FullNode, ghost views: seq<Node>)
    requires n.Valid() && n.hash.None? && keypos < KEY_LENGTH == |key|
    requires ShortBody(s, db, key[..keypos], n.keyPart, View(n.val), t)
    requires m < |n.keyPart| && keypos + m < KEY_LENGTH - 1
    requires key[..keypos + m] == key[..keypos] + n.keyPart[..m]
    requires key[keypos + m] < 16 && n.keyPart[m] < 16 && key[keypos + m] != n.keyPart[m]
    requires n.val.ValueLink? ==> m + 1 < |n.keyPart|
    modifies n
    ensures junction.Valid() && fresh(junction.repr - old(n.repr))
    ensures junction.view == Full(views, None)
    ensures Denotes(s, db, key[..keypos + m], Full(views, None),
                    Branch(NoChildren()[old(n.keyPart)[m] := ShiftDown(t, old(n.keyPart)[m + 1..])]
                                       [key[keypos + m] := Leaf(key[keypos + m + 1..], v)]))
  {
    hide Denotes, Stored, NodesIn, ValuesInDb;
    var pivot, turn := n.keyPart[m], key[keypos + m];
    ghost var at, low := key[..keypos + m], ShiftDown(t, n.keyPart[m + 1..]);
    var shifted := ShiftDownNode(s, db, n, key[..keypos], m, t);
    var leaf := new ShortNode(key[keypos + m + 1..], ValueLink(Raw(v)), None);
    var cs := seq(ARITY, _ => NilLink)[pivot := shifted][turn := ShortLink(leaf)];
    views := seq(ARITY, _ => NoNode)[pivot := View(shifted)][turn := leaf.view];
    junction := new FullNode(cs, None, views, {leaf} + Repr(shifted));
    JunctionDenotes(s, db, at, pivot, View(shifted), low, turn, leaf.view, Leaf(key[keypos + m + 1..], v));
  }

  /** `mpt_insert`. */
  method MptInsert(s: Schema, db: Db, n: Link, key: Path, keypos: nat, v: Bytes, ghost t: Trie) returns (l: Link)
    requires IsKey(key, KEY_LENGTH) && keypos < KEY_LENGTH
    requires ValidLink(n) && Canonical(t, KEY_LENGTH - keypos)
    requires Denotes(s, db, key[..keypos], View(n), t)
    modifies Repr(n)
    ensures IsKey(key[keypos..], KEY_LENGTH - keypos)
    ensures ValidLink(l) && fresh(Repr(l) - old(Repr(n)))
    ensures Denotes(s, db, key[..keypos], View(l), Insert(t, key[keypos..], v))
    decreases t, if n.HashLink? then 1 else 0
  {
    hide Stored, NodesIn, ValuesInDb, Denotes, Canonical, Insert;
    KeySuffix(key, keypos);
    if n.ShortLink? {
      l := InsertShort(s, db, n.short, key, keypos, v, t);
    } else if n.FullLink? {
      l := InsertFull(s, db, n.full, key, keypos, v, t);
    } else if n.HashLink? {
      var r := ResolveHash(s, db, key[..keypos], n.hash, t);
      l := MptInsert(s, db, r, key, keypos, v, t);
    } else {
      NewLeafDenotes(s, db, key[..keypos], View(n), t, key[keypos..], v);
      var leaf := new ShortNode(key[keypos..], ValueLink(Raw(v)), None);
      l := ShortLink(leaf);
    }
  }

  method InsertShort(s: Schema, db: Db, n: ShortNode, key: Path, keypos: nat, v: Bytes, ghost t: Trie) returns (l: Link)
    requires IsKey(key, KEY_LENGTH) && keypos < KEY_LENGTH && IsKey(key[keypos..], KEY_LENGTH - keypos)
    requires n.Valid() && Canonical(t, KEY_LENGTH - keypos)
    requires Denotes(s, db, key[..keypos], n.view, t)
    modifies n.repr
    ensures ValidLink(l) && fresh(Repr(l) - old(n.repr))
    ensures Denotes(s, db, key[..keypos], View(l), Insert(t, key[keypos..], v))
    decreases t, 0, 2
  {
    hide Denotes, Stored, NodesIn, ValuesInDb;
    ghost var was := n.view;
    n.Set(n.keyPart, n.val, None);
    BodyOfShort(s, db, key[..keypos], was, t);
    var matchlen := PrefixLen(key[keypos..], n.keyPart);
    if keypos + matchlen == KEY_LENGTH {
      l := InsertAtLeaf(s, db, n, key, keypos, v, t);
    } else if matchlen == |n.keyPart| {
      l := InsertMatched(s, db, n, key, keypos, v, t);
    } else {
      PartWithNibbles(key[keypos..], n.keyPart);
      l := SplitNode(s, db, n, key, keypos, matchlen, v, t);
    }
  }

  /** The whole key matched: the leaf's value is overwritten. */
  method InsertAtLeaf(s: Schema, db: Db, n: ShortNode, key: Path, keypos: nat, v: Bytes, ghost t: Trie) returns (l: Link)
    requires keypos < KEY_LENGTH == |key| && IsKey(key[keypos..], KEY_LENGTH - keypos)
    requires t.Leaf? && t.key == n.keyPart && Canonical(t, KEY_LENGTH - keypos)
    requires CommonPrefix(key[keypos..], n.keyPart) == KEY_LENGTH - keypos
    modifies n
    ensures ValidLink(l) && Repr(l) == {n}
    ensures Denotes(s, db, key[..keypos], View(l), Insert(t, key[keypos..], v))
  {
    n.Set(n.keyPart, ValueLink(Raw(v)), None);
    InsertLeafDenotes(s, db, key[..keypos], t, key[keypos..], v);
    l := ShortLink(n);
  }

  /** The key part matched: insertion goes on behind it. */
  method InsertMatched(s: Schema, db: Db, n: ShortNode, key: Path, keypos: nat, v: Bytes, ghost t: Trie) returns (l: Link)
    requires IsKey(key, KEY_LENGTH) && keypos < KEY_LENGTH && IsKey(key[keypos..], KEY_LENGTH - keypos)
    requires n.Valid() && Canonical(t, KEY_LENGTH - keypos) && t.Ext? && t.key == n.keyPart
    requires CommonPrefix(key[keypos..], n.keyPart) == |n.keyPart|
    requires Denotes(s, db, key[..keypos] + n.keyPart, View(n.val), t.child)
    modifies n.repr
    ensures ValidLink(l) && fresh(Repr(l) - old(n.repr))
    ensures Denotes(s, db, key[..keypos], View(l), Insert(t, key[keypos..], v))
    decreases t, 0, 1
  {
    hide Denotes, Stored, NodesIn, ValuesInDb;
    DescendExt(key, keypos, t);
    ghost var c := InsertPast(s, db, n, key, keypos + |n.keyPart|, v, t.child);
    InsertExtDenotes(s, db, key, keypos, t, v, c);
    l := ShortLink(n);
  }

  /** The assignment to the child behind a matched key part. */
  method InsertPast(s: Schema, db: Db, n: ShortNode, key: Path, after: nat, v: Bytes, ghost u: Trie) returns (ghost c: Node)
    requires IsKey(key, KEY_LENGTH) && after < KEY_LENGTH && n.Valid()
    requires Canonical(u, KEY_LENGTH - after) && Denotes(s, db, key[..after], View(n.val), u)
    modifies n.repr
    ensures n.Valid() && fresh(n.repr - old(n.repr))
    ensures IsKey(key[after..], KEY_LENGTH - after)
    ensures n.view == Short(old(n.keyPart), c, None)
    ensures Denotes(s, db, key[..after], c, Insert(u, key[after..], v))
    decreases u, 2, 0
  {
    hide Denotes, Stored, NodesIn, ValuesInDb;
    var child := MptInsert(s, db, n.val, key, after, v, u);
    c := View(child);
    n.Set(n.keyPart, child, None);
  }

  method InsertFull(s: Schema, db: Db, n: FullNode, key: Path, keypos: nat, v: Bytes, ghost t: Trie) returns (l: Link)
    requires IsKey(key, KEY_LENGTH) && keypos < KEY_LENGTH && IsKey(key[keypos..], KEY_LENGTH - keypos)
    requires n.Valid() && Canonical(t, KEY_LENGTH - keypos)
    requires Denotes(s, db, key[..keypos], n.view, t)
    modifies n.repr
    ensures ValidLink(l) && fresh(Repr(l) - old(n.repr))
    ensures Denotes(s, db, key[..keypos], View(l), Insert(t, key[keypos..], v))
    decreases t, 0, 1
  {
    hide Denotes, Stored, NodesIn, ValuesInDb;
    ghost var was := n.view;
    DescendBranch(s, db, was, t, key, keypos);
    ghost var c := InsertBelow(s, db, n, key, keypos, v, t.children[key[keypos]]);
    InsertFullDenotes(s, db, was, t, key, keypos, v, c);
    l := FullLink(n);
  }

  /** The assignment to the child on the way. */
  method InsertBelow(s: Schema, db: Db, n: FullNode, key: Path, keypos: nat, v: Bytes, ghost u: Trie) returns (ghost c: Node)
    requires IsKey(key, KEY_LENGTH) && keypos + 1 < KEY_LENGTH && key[keypos] < ARITY && n.Valid()
    requires Canonical(u, KEY_LENGTH - keypos - 1)
    requires Denotes(s, db, key[..keypos + 1], n.view.children[key[keypos]], u)
    modifies n.repr
    ensures n.Valid() && fresh(n.repr - old(n.repr))
    ensures n.view == Full(old(n.view.children)[key[keypos] := c], None)
    ensures IsKey(key[keypos + 1..], KEY_LENGTH - keypos - 1)
    ensures Denotes(s, db, key[..keypos + 1], c, Insert(u, key[keypos + 1..], v))
    decreases u, 2, 0
  {
    hide Denotes, Stored, NodesIn, ValuesInDb;
    var nibble := key[keypos];
    ghost var rest := SetAside(n, nibble);
    var child := MptInsert(s, db, n.children[nibble], key, keypos + 1, v, u);
    c := View(child);
    n.Replace(nibble, child, None, rest);
  }

  // ---------------------------------------------------------------------------------
  // Deletion
  // ---------------------------------------------------------------------------------

  /** `shift` upwards: the last child of a collapsing branch absorbs its nibble. */
  method ShiftUpNode(s: Schema, db: Db, n: ShortNode, prefix: Path, pivot: Byte, ghost t: Trie)
    requires n.Valid() && n.hash.None?
    requires ShortBody(s, db, prefix + [pivot], n.keyPart, View(n.val), t)
    modifies n
    ensures n.Valid() && n.repr <= old(n.repr) && n.hash.None?
    ensures Denotes(s, db, prefix, n.view, Prepend([pivot], t))
  {
    assert prefix + [pivot] + n.keyPart == prefix + ([pivot] + n.keyPart);
    if n.val.ValueLink? {
      n.Set([pivot] + n.keyPart, ValueLink(ResolveCell(db, prefix + [pivot] + n.keyPart, n.val.cell)), None);
    } else {
      n.Set([pivot] + n.keyPart, n.val, None);
    }
  }

  /** The scan for the only other child. */
  method OnlyChildIndex(children: seq<Link>, nibble: nat, ghost ts: seq<Trie>) returns (only: Option<nat>)
    requires |children| == |ts| == ARITY && nibble < ARITY
    requires forall i :: 0 <= i < ARITY && i != nibble ==> (children[i].NilLink? <==> ts[i] == Nil)
    ensures only == OnlyChild(ts, nibble)
  {
    only := None;
    for i := 0 to ARITY
      invariant OnlyChild(ts, nibble) == OnlyChildFrom(ts, nibble, i, only)
    {
      if !children[i].NilLink? && i != nibble {
        if only.Some? { return None; }
        only := Some(i);
      }
    }
  }

  /** `mpt_del`; `found` is false where the source panics with `mpt_del_not_found`.  Even then
      nodes may have lost cached hashes, but they stand for the same trie. */
  method MptDel(s: Schema, db: Db, n: Link, key: Path, keypos: nat, ghost t: Trie) returns (found: bool, l: Link)
    requires IsKey(key, KEY_LENGTH) && keypos < KEY_LENGTH
    requires ValidLink(n) && Canonical(t, KEY_LENGTH - keypos)
    requires Denotes(s, db, key[..keypos], View(n), t)
    modifies Repr(n)
    ensures IsKey(key[keypos..], KEY_LENGTH - keypos) && ValidLink(l)
    ensures found <==> Remove(t, key[keypos..]).Some?
    ensures fresh(Repr(l) - old(Repr(n)))
    ensures !found ==> l == n && Denotes(s, db, key[..keypos], View(l), t)
    ensures found ==> Denotes(s, db, key[..keypos], View(l), Remove(t, key[keypos..]).value)
    ensures found && t.Branch? && l.ShortLink? ==> l.short.hash.None?
    decreases t, if n.HashLink? then 1 else 0
  {
    hide Stored, NodesIn, ValuesInDb, Denotes, Canonical, Remove;
    KeySuffix(key, keypos);
    NothingToRemove(s, db, key[..keypos], View(n), t, key[keypos..]);
    if n.ShortLink? {
      found, l := DelShort(s, db, n.short, key, keypos, t);
    } else if n.FullLink? {
      found, l := DelFull(s, db, n.full, key, keypos, t);
    } else if n.HashLink? {
      var r := ResolveHash(s, db, key[..keypos], n.hash, t);
      found, l := MptDel(s, db, r, key, keypos, t);
      if !found { l := n; }
    } else {
      found, l := false, n;
    }
  }

  method DelShort(s: Schema, db: Db, n: ShortNode, key: Path, keypos: nat, ghost t: Trie) returns (found: bool, l: Link)
    requires IsKey(key, KEY_LENGTH) && keypos < KEY_LENGTH && IsKey(key[keypos..], KEY_LENGTH - keypos)
    requires n.Valid() && Canonical(t, KEY_LENGTH - keypos)
    requires Denotes(s, db, key[..keypos], n.view, t)
    modifies n.repr
    ensures found <==> Remove(t, key[keypos..]).Some?
    ensures ValidLink(l) && fresh(Repr(l) - old(n.repr))
    ensures !found ==> l == ShortLink(n) && Denotes(s, db, key[..keypos], View(l), t)
    ensures found ==> Denotes(s, db, key[..keypos], View(l), Remove(t, key[keypos..]).value)
    ensures !t.Branch?
    decreases t, 0, 2
  {
    hide Stored, NodesIn, ValuesInDb;
    BodyOfShort(s, db, key[..keypos], n.view, t);
    RemoveShortEnds(t, key, keypos);
    var matchlen := PrefixLen(key[keypos..], n.keyPart);
    if matchlen != |n.keyPart| {
      found, l := false, ShortLink(n);
    } else if keypos + matchlen == KEY_LENGTH {
      found, l := true, NilLink;
    } else {
      found, l := DelMatched(s, db, n, key, keypos, t);
    }
  }

  /** Deletion behind a matched key part. */
  method DelMatched(s: Schema, db: Db, n: ShortNode, key: Path, keypos: nat, ghost t: Trie) returns (found: bool, l: Link)
    requires IsKey(key, KEY_LENGTH) && keypos < KEY_LENGTH && IsKey(key[keypos..], KEY_LENGTH - keypos)
    requires n.Valid() && Canonical(t, KEY_LENGTH - keypos) && t.Ext? && t.key == n.keyPart
    requires CommonPrefix(key[keypos..], n.keyPart) == |n.keyPart|
    requires Denotes(s, db, key[..keypos] + n.keyPart, View(n.val), t.child)
    modifies n.repr
    ensures found <==> Remove(t, key[keypos..]).Some?
    ensures ValidLink(l) && fresh(Repr(l) - old(n.repr))
    ensures !found ==> l == ShortLink(n) && Denotes(s, db, key[..keypos], View(l), t)
    ensures found ==> Denotes(s, db, key[..keypos], View(l), Remove(t, key[keypos..]).value)
    decreases t, 0, 1
  {
    hide Denotes, Stored, NodesIn, ValuesInDb, Remove, CommonPrefix, HashOf, Get;
    DescendExt(key, keypos, t);
    RemoveExtResult(t, key, keypos);
    ghost var c: Node;
    found, c := DelPast(s, db, n, key, keypos + |n.keyPart|, t.child);
    l := ShortLink(n);
    if found {
      RemoveExtDenotes(s, db, key, keypos, t, c);
    } else {
      MissedExtDenotes(s, db, key[..keypos], t, c);
    }
  }

  /** The recursive call and the update of a short node; a short node below is merged. */
  method DelPast(s: Schema, db: Db, n: ShortNode, key: Path, after: nat, ghost u: Trie) returns (found: bool, ghost c: Node)
    requires IsKey(key, KEY_LENGTH) && after < KEY_LENGTH && n.Valid()
    requires Canonical(u, KEY_LENGTH - after) && u.Branch? && Denotes(s, db, key[..after], View(n.val), u)
    modifies n.repr
    ensures IsKey(key[after..], KEY_LENGTH - after)
    ensures found <==> Remove(u, key[after..]).Some?
    ensures n.Valid() && fresh(n.repr - old(n.repr))
    ensures n.view == if found && c.Short? then Short(old(n.keyPart) + c.key, c.val, None) else Short(old(n.keyPart), c, None)
    ensures !found ==> Denotes(s, db, key[..after], c, u)
    ensures found ==> Denotes(s, db, key[..after], c, Remove(u, key[after..]).value)
    ensures found && c.Short? ==> c.cachedHash.None?
    decreases u, 2, 0
  {
    hide Denotes, Stored, NodesIn, ValuesInDb;
    n.hash := None;
    var child: Link;
    found, child := MptDel(s, db, n.val, key, after, u);
    c := View(child);
    if found && child.ShortLink? {
      n.Set(n.keyPart + child.short.keyPart, child.short.val, None);
    } else {
      n.Set(n.keyPart, child, None);
    }
  }

  method DelFull(s: Schema, db: Db, n: FullNode, key: Path, keypos: nat, ghost t: Trie) returns (found: bool, l: Link)
    requires IsKey(key, KEY_LENGTH) && keypos < KEY_LENGTH && IsKey(key[keypos..], KEY_LENGTH - keypos)
    requires n.Valid() && Canonical(t, KEY_LENGTH - keypos)
    requires Denotes(s, db, key[..keypos], n.view, t)
    modifies n.repr
    ensures found <==> Remove(t, key[keypos..]).Some?
    ensures ValidLink(l) && fresh(Repr(l) - old(n.repr))
    ensures !found ==> l == FullLink(n) && Denotes(s, db, key[..keypos], View(l), t)
    ensures found ==> Denotes(s, db, key[..keypos], View(l), Remove(t, key[keypos..]).value)
    ensures found && l.ShortLink? ==> l.short.hash.None?
    decreases t, 0, 2
  {
    hide Denotes, Stored, NodesIn, ValuesInDb;
    ghost var was := n.view;
    DescendBranch(s, db, was, t, key, keypos);
    RemoveBranchResult(s, db, was, t, key, keypos);
    var nibble := key[keypos];
    ghost var rest := SetAside(n, nibble);
    var child: Link;
    found, child := MptDel(s, db, n.children[nibble], key, keypos + 1, t.children[nibble]);
    if !found {
      n.Replace(nibble, child, n.hash, rest);
      MissedFullDenotes(s, db, was, t, key, keypos, View(child));
      l := FullLink(n);
    } else {
      l := FinishDelete(s, db, n, key, keypos, child, rest, t);
    }
  }

  /** The end of `mpt_del` on a full node, after the recursive call. */
  method FinishDelete(s: Schema, db: Db, n: FullNode, key: Path, keypos: nat, child: Link, ghost rest: set<object>, ghost t: Trie)
      returns (l: Link)
    requires IsKey(key, KEY_LENGTH) && keypos + 1 < KEY_LENGTH && IsKey(key[keypos..], KEY_LENGTH - keypos)
    requires key[keypos] < ARITY && n.ValidBut(key[keypos], rest) && ValidLink(child) && Repr(child) !! rest
    requires Canonical(t, KEY_LENGTH - keypos) && Denotes(s, db, key[..keypos], n.view, t)
    requires t.Branch? && |t.children| == ARITY && Canonical(t.children[key[keypos]], KEY_LENGTH - keypos - 1)
    requires IsKey(key[keypos + 1..], KEY_LENGTH - keypos - 1)
    requires var below := Remove(t.children[key[keypos]], key[keypos + 1..]);
             below.Some? && Denotes(s, db, key[..keypos + 1], View(child), below.value)
    modifies rest
    ensures Remove(t, key[keypos..]).Some?
    ensures ValidLink(l) && fresh(Repr(l) - rest - old(Repr(child)))
    ensures Denotes(s, db, key[..keypos], View(l), Remove(t, key[keypos..]).value)
    ensures l.ShortLink? ==> l.short.hash.None?
  {
    hide Denotes, Stored, NodesIn, ValuesInDb, Canonical, Remove, Survivor;
    ghost var below := Remove(t.children[key[keypos]], key[keypos + 1..]).value;
    RemoveBranchResult(s, db, n.view, t, key, keypos);
    var only := FindSurvivor(s, db, n, key, keypos, child, rest, t, below);
    if only.None? {
      l := KeepBranch(s, db, n, key, keypos, child, rest, t);
    } else {
      l := CollapseBranch(s, db, n, key, keypos, only.value, rest, t);
    }
  }

  method KeepBranch(s: Schema, db: Db, n: FullNode, key: Path, keypos: nat, child: Link, ghost rest: set<object>, ghost t: Trie)
      returns (l: Link)
    requires IsKey(key, KEY_LENGTH) && keypos + 1 < KEY_LENGTH && IsKey(key[keypos..], KEY_LENGTH - keypos)
    requires key[keypos] < ARITY && n.ValidBut(key[keypos], rest) && ValidLink(child) && Repr(child) !! rest
    requires Canonical(t, KEY_LENGTH - keypos) && Denotes(s, db, key[..keypos], n.view, t)
    requires t.Branch? && |t.children| == ARITY && Canonical(t.children[key[keypos]], KEY_LENGTH - keypos - 1)
    requires IsKey(key[keypos + 1..], KEY_LENGTH - keypos - 1)
    requires var below := Remove(t.children[key[keypos]], key[keypos + 1..]);
             below.Some? && Survivor(t, key[keypos], below.value).None? &&
             Denotes(s, db, key[..keypos + 1], View(child), below.value)
    modifies n
    ensures Remove(t, key[keypos..]).Some?
    ensures l == FullLink(n) && ValidLink(l) && Repr(l) == rest + old(Repr(child))
    ensures Denotes(s, db, key[..keypos], View(l), Remove(t, key[keypos..]).value)
  {
    hide Denotes, Stored, NodesIn, ValuesInDb;
    ghost var was, c := n.view, View(child);
    n.Replace(key[keypos], child, None, rest);
    RemoveFullDenotes(s, db, was, t, key, keypos, c);
    l := FullLink(n);
  }

  lemma CanonicalChild(t: Trie, length: nat, i: nat)
    requires t.Branch? && Canonical(t, length) && i < ARITY
    ensures |t.children| == ARITY && length > 0 && Canonical(t.children[i], length - 1)
  {
  }

  method CollapseBranch(s: Schema, db: Db, n: FullNode, key: Path, keypos: nat, only: nat, ghost rest: set<object>, ghost t: Trie)
      returns (l: Link)
    requires IsKey(key, KEY_LENGTH) && keypos + 1 < KEY_LENGTH && IsKey(key[keypos..], KEY_LENGTH - keypos)
    requires key[keypos] < ARITY && n.ValidBut(key[keypos], rest)
    requires Canonical(t, KEY_LENGTH - keypos) && Denotes(s, db, key[..keypos], n.view, t)
    requires t.Branch? && |t.children| == ARITY && Canonical(t.children[key[keypos]], KEY_LENGTH - keypos - 1)
    requires IsKey(key[keypos + 1..], KEY_LENGTH - keypos - 1)
    requires only < ARITY && only != key[keypos] && t.children[only] != Nil
    requires var below := Remove(t.children[key[keypos]], key[keypos + 1..]);
             below.Some? && Survivor(t, key[keypos], below.value) == Some(only)
    modifies rest
    ensures Remove(t, key[keypos..]).Some?
    ensures ValidLink(l) && fresh(Repr(l) - rest)
    ensures Denotes(s, db, key[..keypos], View(l), Remove(t, key[keypos..]).value)
    ensures l.ShortLink? ==> l.short.hash.None?
  {
    hide Denotes, Stored, NodesIn, ValuesInDb, Canonical, Prepend, Remove, Survivor;
    ghost var was := n.view;
    NilIffNoNode(s, db, key[..keypos], was, t, only);
    CanonicalChild(t, KEY_LENGTH - keypos, only);
    l := Collapse(s, db, n.children[only], key[..keypos], only, t.children[only]);
    CollapseDenotes(s, db, was, t, key, keypos, only, View(l));
  }

  /** The child that is left when the one on the way is gone. */
  method FindSurvivor(s: Schema, db: Db, n: FullNode, key: Path, keypos: nat, child: Link, ghost rest: set<object>,
                      ghost t: Trie, ghost below: Trie) returns (only: Option<nat>)
    requires keypos < |key| && key[keypos] < ARITY && n.ValidBut(key[keypos], rest) && ValidLink(child)
    requires Denotes(s, db, key[..keypos], n.view, t) && Denotes(s, db, key[..keypos + 1], View(child), below)
    ensures t.Branch? && |t.children| == ARITY
    ensures only == Survivor(t, key[keypos], below)
  {
    only := None;
    if child.NilLink? {
      forall i | 0 <= i < ARITY && i != key[keypos] ensures n.children[i].NilLink? <==> t.children[i] == Nil {
        NilIffNoNode(s, db, key[..keypos], n.view, t, i);
      }
      only := OnlyChildIndex(n.children, key[keypos], t.children);
    }
  }

  /** The only child left of a branch below `prefix`, lifted by its nibble. */
  method Collapse(s: Schema, db: Db, c: Link, prefix: Path, nibble: Byte, ghost t: Trie) returns (l: Link)
    requires ValidLink(c) && t != Nil && |prefix| < KEY_LENGTH && Canonical(t, KEY_LENGTH - |prefix| - 1)
    requires Denotes(s, db, prefix + [nibble], View(c), t)
    modifies Repr(c)
    ensures ValidLink(l) && fresh(Repr(l) - old(Repr(c)))
    ensures Denotes(s, db, prefix, View(l), Prepend([nibble], t))
    ensures l.ShortLink? ==> l.short.hash.None?
  {
    hide Denotes, Stored, NodesIn, ValuesInDb, Canonical, Prepend;
    var child := c;
    if c.HashLink? {
      child := ResolveHash(s, db, prefix + [nibble], c.hash, t);
    }
    if child.ShortLink? {
      BodyOfShort(s, db, prefix + [nibble], child.short.view, t);
      child.short.Set(child.short.keyPart, child.short.val, None);
      ShiftUpNode(s, db, child.short, prefix, nibble, t);
      l := child;
    } else {
      PrependDenotes(s, db, prefix, [nibble], View(child), t);
      var top := new ShortNode([nibble], child, None);
      l := ShortLink(top);
    }
  }
}
