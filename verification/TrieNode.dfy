/** Nodes of the trie: the two encodings of a resolved node (Appendix D of the Yellow Paper, and what
    ebla/trie writes to the database), nodes as they are kept in memory and what they stand for,
    and the reading of stored nodes. */
module TrieNode {
  import opened Wrappers
  import opened Rlp
  import opened RlpRaw
  import opened Trie
  import opened HexPrefix

  const HASH_LENGTH: nat := 32

  type Hash = h: Bytes | |h| == HASH_LENGTH witness seq(HASH_LENGTH, _ => 0)

  /** `Schema`, with Keccak as a given function.  Both schemas of the repository keep values
      of up to eight bytes in the trie; below a hash's length is what decoding relies on. */
  datatype Schema' = Schema(keccak: Bytes -> Hash, toHashEncoding: Bytes -> Bytes, maxInTrie: nat)

  type Schema = s: Schema' | s.maxInTrie < HASH_LENGTH
    witness Schema(_ => seq(HASH_LENGTH, _ => 0), b => b, 8)

  // ---------------------------------------------------------------------------------
  // Hash form
  // ---------------------------------------------------------------------------------

  /** The structural composition c(J, i) of Appendix D. */
  function HashItem(s: Schema, t: Trie): (item: Item)
    decreases t, 0
  {
    match t
    case Nil => Str([])
    case Leaf(key, val) => List([Str(Compact(key)), Str(s.toHashEncoding(val))])
    case Ext(key, child) => List([Str(Compact(key)), Ref(s, child)])
    case Branch(children) => List(Refs(s, children) + [Str([])])
  }

  /** The node composition n(J, i): in line below 32 bytes, by hash from there on. */
  function Ref(s: Schema, t: Trie): (item: Item)
    decreases t, 1
  {
    if t == Nil then Str([])
    else if |Encode(HashItem(s, t))| < HASH_LENGTH then HashItem(s, t)
    else Str(s.keccak(Encode(HashItem(s, t))))
  }

  function Refs(s: Schema, ts: seq<Trie>): (items: seq<Item>)
    ensures |items| == |ts|
    decreases ts, 1
  {
    if ts == [] then [] else [Ref(s, ts[0])] + Refs(s, ts[1..])
  }

  function HashOf(s: Schema, t: Trie): (h: Hash)
  {
    s.keccak(Encode(HashItem(s, t)))
  }

  /** Large nodes are those referred to by hash. */
  predicate Large(s: Schema, t: Trie)
  {
    |Encode(HashItem(s, t))| >= HASH_LENGTH
  }

  /** The root hash of a trie; the empty trie has none. */
  function RootHash(s: Schema, t: Trie): (h: Option<Hash>)
  {
    if t == Nil then None else Some(HashOf(s, t))
  }

  // ---------------------------------------------------------------------------------
  // Storage form
  // ---------------------------------------------------------------------------------

  /** The node as `commit` writes it: a leaf holds its own hash, or a small value, or only its
      key. */
  function StoreItem(s: Schema, t: Trie, isRoot: bool): (item: Item)
    decreases t, 0
  {
    match t
    case Nil => Str([])
    case Leaf(key, val) =>
      List([Str(Compact(key))] +
           (if isRoot || Large(s, t) then [Str(HashOf(s, t))]
            else if |val| <= s.maxInTrie then [Str(val)]
            else []))
    case Ext(key, child) => List([Str(Compact(key)), StoreRef(s, child)])
    case Branch(children) => List(StoreRefs(s, children))
  }

  /** Only large branches get a database entry of their own. */
  function StoreRef(s: Schema, t: Trie): (item: Item)
    decreases t, 1
  {
    if t.Branch? && Large(s, t) then Str(HashOf(s, t)) else StoreItem(s, t, false)
  }

  function StoreRefs(s: Schema, ts: seq<Trie>): (items: seq<Item>)
    ensures |items| == |ts|
    decreases ts, 1
  {
    if ts == [] then [] else [StoreRef(s, ts[0])] + StoreRefs(s, ts[1..])
  }

  // ---------------------------------------------------------------------------------
  // Sizes
  // ---------------------------------------------------------------------------------

  lemma {:induction false} EncodeAllAppend(xs: seq<Item>, ys: seq<Item>)
    ensures EncodeAll(xs + ys) == EncodeAll(xs) + EncodeAll(ys)
    decreases |xs|
  {
    if xs == [] {
      assert xs + ys == ys;
    } else {
      assert (xs + ys)[1..] == xs[1..] + ys;
      EncodeAllAppend(xs[1..], ys);
    }
  }

  lemma EncodeAllOne(x: Item)
    ensures EncodeAll([x]) == Encode(x)
  {
    assert EncodeAll([x]) == Encode(x) + EncodeAll([x][1..]);
  }

  lemma EncodeAllTwo(x: Item, y: Item)
    ensures EncodeAll([x, y]) == Encode(x) + Encode(y)
  {
    assert [x, y][1..] == [y];
    EncodeAllOne(y);
  }

  /** Headers of payloads below 2^16 take at most three bytes. */
  lemma SmallHeader(small: Byte, large: Byte, size: nat)
    requires size < 0x1_0000
    ensures 1 <= |Header(small, large, size)| <= 3
  {
    if size >= 56 {
      PutIntBytes(size, 0);
      assert WidthOf(size) <= 2;
    }
  }

  lemma SmallString(b: Bytes)
    requires |b| < 0x1_0000
    ensures 1 <= |Encode(Str(b))| <= |b| + 3
    ensures |b| < 56 ==> |Encode(Str(b))| <= |b| + 1
  {
    SmallHeader(0x80, 0xB7, |b|);
  }

  /** No item is empty. */
  lemma {:induction false} AtLeastOneByteEach(items: seq<Item>)
    ensures |EncodeAll(items)| >= |items|
    decreases |items|
  {
    if items != [] {
      EncodeNonEmpty(items[0]);
      AtLeastOneByteEach(items[1..]);
    }
  }

  /** Within n items each of the others takes a byte. */
  lemma {:induction false} OneItemBound(items: seq<Item>, i: nat)
    requires i < |items|
    ensures |EncodeAll(items)| >= |Encode(items[i])| + |items| - 1
    decreases |items|
  {
    if i == 0 {
      AtLeastOneByteEach(items[1..]);
    } else {
      EncodeNonEmpty(items[0]);
      OneItemBound(items[1..], i - 1);
    }
  }

  lemma {:induction false} ItemsBound(items: seq<Item>, bound: nat)
    requires forall i :: 0 <= i < |items| ==> |Encode(items[i])| <= bound
    ensures |EncodeAll(items)| <= |items| * bound
    decreases |items|
  {
    if items != [] {
      assert forall i :: 0 <= i < |items[1..]| ==> items[1..][i] == items[i + 1];
      ItemsBound(items[1..], bound);
      assert |items| * bound == bound + (|items| - 1) * bound;
    }
  }

  lemma {:induction false} RefsAt(s: Schema, ts: seq<Trie>, i: nat)
    requires i < |ts|
    ensures Refs(s, ts)[i] == Ref(s, ts[i])
    decreases |ts|
  {
    if i > 0 { RefsAt(s, ts[1..], i - 1); }
  }

  lemma {:induction false} StoreRefsAt(s: Schema, ts: seq<Trie>, i: nat)
    requires i < |ts|
    ensures StoreRefs(s, ts)[i] == StoreRef(s, ts[i])
    decreases |ts|
  {
    if i > 0 { StoreRefsAt(s, ts[1..], i - 1); }
  }

  /** A branch takes more than seventeen bytes in hash form. */
  lemma BranchHashSize(s: Schema, t: Trie)
    requires t.Branch? && |t.children| == ARITY
    ensures |Encode(HashItem(s, t))| >= 18
    ensures |Encode(Ref(s, t))| >= 18
  {
    AtLeastOneByteEach(Refs(s, t.children) + [Str([])]);
  }

  /** A branch in line has only missing or leaf children: another branch, alone or behind an
      extension, would make it large. */
  lemma InlineBranchChildren(s: Schema, t: Trie, length: nat, i: nat)
    requires Canonical(t, length) && t.Branch? && !Large(s, t) && i < ARITY
    ensures t.children[i].Nil? || t.children[i].Leaf?
  {
    var c := t.children[i];
    assert Canonical(c, length - 1);
    var items := Refs(s, t.children) + [Str([])];
    RefsAt(s, t.children, i);
    OneItemBound(items, i);
    assert |Encode(Ref(s, c))| < 16;
    if c.Branch? {
      BranchHashSize(s, c);
    } else if c.Ext? {
      BranchHashSize(s, c.child);
      EncodeAllTwo(Str(Compact(c.key)), Ref(s, c.child));
    }
  }

  /** A hash reference takes 33 bytes. */
  lemma HashStringSize(h: Hash)
    ensures |Encode(Str(h))| == 33
  {
  }

  const LEAF_BOUND: nat := 100
  const EXT_BOUND: nat := 2000
  const NODE_BOUND: nat := 40000

  lemma LeafStoreBound(s: Schema, t: Trie, length: nat, isRoot: bool)
    requires Canonical(t, length) && length <= KEY_LENGTH && t.Leaf?
    ensures |Encode(StoreItem(s, t, isRoot))| <= LEAF_BOUND
  {
    var k := Str(Compact(t.key));
    SmallString(Compact(t.key));
    if isRoot || Large(s, t) {
      HashStringSize(HashOf(s, t));
      EncodeAllTwo(k, Str(HashOf(s, t)));
      assert [k] + [Str(HashOf(s, t))] == [k, Str(HashOf(s, t))];
    } else if |t.val| <= s.maxInTrie {
      SmallString(t.val);
      EncodeAllTwo(k, Str(t.val));
      assert [k] + [Str(t.val)] == [k, Str(t.val)];
    } else {
      EncodeAllOne(k);
      assert [k] + [] == [k];
    }
    var p := EncodeAll(StoreItem(s, t, isRoot).items);
    assert |p| <= 90;
    SmallHeader(0xC0, 0xF7, |p|);
  }

  lemma InlineBranchStoreBound(s: Schema, t: Trie, length: nat)
    requires Canonical(t, length) && length <= KEY_LENGTH && t.Branch?
    ensures |Encode(StoreRef(s, t))| <= 1700
  {
    if Large(s, t) {
      HashStringSize(HashOf(s, t));
    } else {
      var items := StoreRefs(s, t.children);
      forall i | 0 <= i < ARITY ensures |Encode(items[i])| <= LEAF_BOUND {
        StoreRefsAt(s, t.children, i);
        InlineBranchChildren(s, t, length, i);
        if t.children[i].Leaf? {
          LeafStoreBound(s, t.children[i], length - 1, false);
        }
      }
      ItemsBound(items, LEAF_BOUND);
      SmallHeader(0xC0, 0xF7, |EncodeAll(items)|);
    }
  }

  lemma ExtStoreBound(s: Schema, t: Trie, length: nat, isRoot: bool)
    requires Canonical(t, length) && length <= KEY_LENGTH && t.Ext?
    ensures |Encode(StoreItem(s, t, isRoot))| <= EXT_BOUND
  {
    var k := Str(Compact(t.key));
    SmallString(Compact(t.key));
    InlineBranchStoreBound(s, t.child, length - |t.key|);
    EncodeAllTwo(k, StoreRef(s, t.child));
    SmallHeader(0xC0, 0xF7, |EncodeAll([k, StoreRef(s, t.child)])|);
  }

  lemma StoreRefBound(s: Schema, t: Trie, length: nat)
    requires Canonical(t, length) && length <= KEY_LENGTH
    ensures |Encode(StoreRef(s, t))| <= EXT_BOUND
  {
    match t
    case Nil =>
    case Leaf(_, _) => LeafStoreBound(s, t, length, false);
    case Ext(_, _) => ExtStoreBound(s, t, length, false);
    case Branch(_) => InlineBranchStoreBound(s, t, length);
  }

  /** No stored node is longer than NODE_BOUND bytes, however large the values. */
  lemma StoreBound(s: Schema, t: Trie, length: nat, isRoot: bool)
    requires Canonical(t, length) && length <= KEY_LENGTH
    ensures |Encode(StoreItem(s, t, isRoot))| <= NODE_BOUND
  {
    match t
    case Nil =>
    case Leaf(_, _) => LeafStoreBound(s, t, length, isRoot);
    case Ext(_, _) => ExtStoreBound(s, t, length, isRoot);
    case Branch(children) =>
      var items := StoreRefs(s, children);
      forall i | 0 <= i < ARITY ensures |Encode(items[i])| <= EXT_BOUND {
        StoreRefsAt(s, children, i);
        StoreRefBound(s, children[i], length - 1);
      }
      ItemsBound(items, EXT_BOUND);
      SmallHeader(0xC0, 0xF7, |EncodeAll(items)|);
  }

  // =================================================================================
  // Nodes as ebla/trie keeps them in memory: parts of the trie may be only hashes, leaf values
  // may be absent, and hashes may be cached.  `Denotes` says which resolved trie a node stands
  // for, given the database; decoding a stored node is shown to give a node that stands for the
  // trie that was stored.
  // =================================================================================

  /** The two tables behind `IO`: nodes by hash, values by (hex) key. */
  datatype Db = Db(nodes: map<Hash, Bytes>, values: map<Path, Bytes>)

  /** What a leaf keeps: a value handed to Put, a value read from the database, or nothing
      (`nil_val_node`) when only the leaf's hash was stored. */
  datatype Cell = Raw(val: Bytes) | Cached(val: Bytes) | Absent

  datatype Node =
    | NoNode
    | HashRef(hash: Hash)
    | Value(cell: Cell)
    | Short(key: Path, val: Node, cachedHash: Option<Hash>)
    | Full(children: seq<Node>, cachedHash: Option<Hash>)

  // ---------------------------------------------------------------------------------
  // Decoding (reader.go)
  // ---------------------------------------------------------------------------------

  /** `dec_node`; None where the source panics.  The result is the node and the bytes after it. */
  function DecNode(s: Schema, db: Db, prefix: Path, dbHash: Option<Hash>, buf: Bytes): (r: Option<(Node, Bytes)>)
    ensures r.Some? ==> |r.value.1| < |buf|
    decreases |buf|, 1
  {
    match ReadKind(buf)
    case Err(_) => None
    case Ok(h) =>
      var payload, rest := buf[h.tagSize..h.totalSize], buf[h.totalSize..];
      match h.kind
      case KList =>
        var size := ValuesIn(payload);
        if size == Ok(1) || size == Ok(2) then
          var r := DecShort(s, db, prefix, dbHash, buf[..h.totalSize], h.tagSize);
          if r.None? then None else Some((r.value, rest))
        else if size == Ok(ARITY) then
          var r := DecChildren(s, db, prefix, payload, 0);
          if r.None? then None else Some((Full(r.value, dbHash), rest))
        else None
      case KString =>
        if |payload| == 0 then Some((NoNode, rest))
        else if |payload| == HASH_LENGTH then Some((HashRef(payload), rest))
        else None
      case KByte => None
  }

  /** `dec_short`; an empty compact key is an index out of range in `compact_to_hex`. */
  function DecShort(s: Schema, db: Db, prefix: Path, dbHash: Option<Hash>, buf: Bytes, payloadStart: nat): (r: Option<Node>)
    requires 0 < payloadStart <= |buf|
    decreases |buf|, 0
  {
    match SplitString(buf[payloadStart..])
    case Err(_) => None
    case Ok((compact, content)) =>
      if compact == [] then None
      else
        var key := FromCompact(compact);
        if HasTerm(key) then
          if |content| == 0 then
            if prefix + key in db.values then Some(Short(key, Value(Cached(db.values[prefix + key])), dbHash))
            else None
          else
            match SplitString(content)
            case Err(_) => None
            case Ok((c, _)) =>
              if |c| == HASH_LENGTH then Some(Short(key, Value(Absent), Some(c)))
              else if 0 < |c| <= s.maxInTrie then Some(Short(key, Value(Cached(c)), dbHash))
              else None
        else
          match DecNode(s, db, prefix + key, None, content)
          case None => None
          case Some((child, _)) =>
            var hash := if child.HashRef? && dbHash.None? then Some(s.keccak(buf)) else dbHash;
            Some(Short(key, child, hash))
  }

  /** The loop of `dec_full` from child `i` on. */
  function DecChildren(s: Schema, db: Db, prefix: Path, enc: Bytes, i: nat): (r: Option<seq<Node>>)
    requires i <= ARITY
    ensures r.Some? ==> |r.value| == ARITY - i
    decreases |enc|, 2
  {
    if i == ARITY then Some([])
    else
      match DecNode(s, db, prefix + [i], None, enc)
      case None => None
      case Some((child, rest)) =>
        match DecChildren(s, db, prefix, rest, i + 1)
        case None => None
        case Some(others) => Some([child] + others)
  }

  // ---------------------------------------------------------------------------------
  // What the database holds of a trie
  // ---------------------------------------------------------------------------------

  /** Every large branch of t is stored under its hash. */
  ghost predicate NodesIn(s: Schema, nodes: map<Hash, Bytes>, t: Trie)
    decreases t
  {
    match t
    case Nil => true
    case Leaf(_, _) => true
    case Ext(_, child) => NodesIn(s, nodes, child)
    case Branch(children) =>
      (Large(s, t) ==> Bound(s, nodes, t, false)) &&
      forall i :: 0 <= i < |children| ==> NodesIn(s, nodes, children[i])
  }

  /** The node itself is stored. */
  ghost predicate Bound(s: Schema, nodes: map<Hash, Bytes>, t: Trie, isRoot: bool)
  {
    HashOf(s, t) in nodes && nodes[HashOf(s, t)] == Encode(StoreItem(s, t, isRoot))
  }

  /** Every value of t, which hangs below `prefix`, is in the value table. */
  ghost predicate ValuesInDb(values: map<Path, Bytes>, prefix: Path, t: Trie)
    decreases t
  {
    match t
    case Nil => true
    case Leaf(key, val) => prefix + key in values && values[prefix + key] == val
    case Ext(key, child) => ValuesInDb(values, prefix + key, child)
    case Branch(children) =>
      forall i :: 0 <= i < |children| && i < 256 ==> ValuesInDb(values, prefix + [i], children[i])
  }

  /** The trie below `prefix` can be read back from the database alone. */
  ghost predicate Stored(s: Schema, db: Db, prefix: Path, t: Trie)
  {
    NodesIn(s, db.nodes, t) && ValuesInDb(db.values, prefix, t) &&
    (prefix == [] || (t.Branch? && Large(s, t)) ==> t == Nil || Bound(s, db.nodes, t, prefix == []))
  }

  // ---------------------------------------------------------------------------------
  // What a node in memory stands for
  // ---------------------------------------------------------------------------------

  /** A cached hash is the hash of the current subtrie; below the root only large nodes
      have one, and at the root and on branches it means that the database has the node. */
  ghost predicate HashOk(s: Schema, db: Db, prefix: Path, h: Option<Hash>, t: Trie)
  {
    h.Some? ==>
      h.value == HashOf(s, t) && (prefix == [] || Large(s, t)) &&
      (prefix == [] || t.Branch? ==> Stored(s, db, prefix, t))
  }

  ghost predicate CellOk(db: Db, key: Path, cell: Cell, val: Bytes)
  {
    (cell.Raw? ==> cell.val == val) &&
    (cell.Cached? ==> cell.val == val) &&
    (!cell.Raw? ==> key in db.values && db.values[key] == val)
  }

  /** Below an extension with a cached hash the storage encoder still runs while the hash
      encoder is off: a large branch there must not need a hash. */
  predicate Settled(s: Schema, n: Node, t: Trie)
  {
    n.Full? && n.cachedHash.None? ==> !Large(s, t)
  }

  /** Node n below `prefix` stands for trie t. */
  ghost predicate Denotes(s: Schema, db: Db, prefix: Path, n: Node, t: Trie)
    decreases n
  {
    match n
    case NoNode => t == Nil
    case HashRef(h) =>
      t != Nil && h == HashOf(s, t) && (prefix == [] || (t.Branch? && Large(s, t))) && Stored(s, db, prefix, t)
    case Value(_) => false
    case Short(key, val, h) =>
      HashOk(s, db, prefix, h, t) &&
      if val.Value? then
        t.Leaf? && t.key == key && CellOk(db, prefix + key, val.cell, t.val) && (val.cell.Absent? ==> h.Some?)
      else
        t.Ext? && t.key == key && Denotes(s, db, prefix + key, val, t.child) &&
        (h.Some? ==> Settled(s, val, t.child))
    case Full(children, h) =>
      t.Branch? && HashOk(s, db, prefix, h, t) &&
      |children| == ARITY && |t.children| == ARITY &&
      forall i :: 0 <= i < ARITY ==> Denotes(s, db, prefix + [i], children[i], t.children[i])
  }

  // ---------------------------------------------------------------------------------
  // Reading back
  // ---------------------------------------------------------------------------------

  /** Counting the values of an encoded list. */
  lemma {:induction false} CountEncoded(items: seq<Item>)
    requires |EncodeAll(items)| < TWO_TO_THE_64
    ensures ValuesIn(EncodeAll(items)) == Ok(|items|)
    decreases |items|
  {
    if items != [] {
      var e := EncodeAll(items);
      var rest := EncodeAll(items[1..]);
      EncodeNonEmpty(items[0]);
      HeadEncoded(items[0], rest);
      CountEncoded(items[1..]);
    }
  }

  /** `ReadKind` on an encoded item. */
  lemma HeadEncoded(item: Item, rest: Bytes)
    requires |Encode(item)| < TWO_TO_THE_64
    ensures ReadKind(Encode(item) + rest).Ok?
    ensures var h := ReadKind(Encode(item) + rest).value;
            h.totalSize == |Encode(item)| &&
            (Encode(item) + rest)[h.totalSize..] == rest &&
            (Encode(item) + rest)[..h.totalSize] == Encode(item) &&
            (h.kind == KList <==> item.List?) &&
            (Encode(item) + rest)[h.tagSize..h.totalSize] ==
            if item.List? then EncodeAll(item.items) else item.bytes
  {
    match item
    case Str(b) =>
      ReadString(b, rest);
      var h := ReadKind(Encode(item) + rest).value;
      assert (Encode(item) + rest)[h.tagSize..h.totalSize] == Encode(item)[h.tagSize..];
    case List(items) =>
      ReadList(EncodeAll(items), rest);
      var h := ReadKind(Encode(item) + rest).value;
      assert (Encode(item) + rest)[h.tagSize..h.totalSize] == Encode(item)[h.tagSize..];
  }

  lemma SplitEncodedString(b: Bytes, rest: Bytes)
    requires |b| < 0x1_0000
    ensures SplitString(Encode(Str(b)) + rest) == Ok((b, rest))
  {
    SmallString(b);
    HeadEncoded(Str(b), rest);
  }

  // =================================================================================
  // Reading a trie back from the database: `resolve` on the hash of a stored trie gives a node
  // that stands for that trie, for every form in which commit stores leaves and branches.
  // =================================================================================

  lemma KeyIsHexPath(key: Path, length: nat)
    requires IsKey(key, length)
    ensures HasTerm(key) && HexPath(key) && |Compact(key)| <= length
  {
  }

  lemma NibblesAreHexPath(key: Path)
    requires Nibbles(key)
    ensures !HasTerm(key) && HexPath(key) && |Compact(key)| <= |key| + 1
  {
  }

  /** `dec_node` once the tag is known to be that of a list. */
  lemma DecNodeList(s: Schema, db: Db, prefix: Path, dbHash: Option<Hash>, buf: Bytes, h: Head, size: nat)
    requires ReadKind(buf) == Ok(h) && h.kind == KList
    requires ValuesIn(buf[h.tagSize..h.totalSize]) == Ok(size)
    ensures 1 <= size <= 2 ==>
              DecNode(s, db, prefix, dbHash, buf) ==
              var r := DecShort(s, db, prefix, dbHash, buf[..h.totalSize], h.tagSize);
              if r.None? then None else Some((r.value, buf[h.totalSize..]))
    ensures size == ARITY ==>
              DecNode(s, db, prefix, dbHash, buf) ==
              var r := DecChildren(s, db, prefix, buf[h.tagSize..h.totalSize], 0);
              if r.None? then None else Some((Full(r.value, dbHash), buf[h.totalSize..]))
  {
  }

  /** `dec_node` on an encoded list of one or two items is `dec_short`. */
  lemma DecodeListAsShort(s: Schema, db: Db, prefix: Path, dbHash: Option<Hash>, items: seq<Item>, rest: Bytes)
    requires 1 <= |items| <= 2 && |Encode(List(items))| < TWO_TO_THE_64
    ensures ReadKind(Encode(List(items)) + rest).Ok?
    ensures var e := Encode(List(items));
            var tag := ReadKind(e + rest).value.tagSize;
            0 < tag <= |e| && e[tag..] == EncodeAll(items) &&
            DecNode(s, db, prefix, dbHash, e + rest) ==
            var r := DecShort(s, db, prefix, dbHash, e, tag);
            if r.None? then None else Some((r.value, rest))
  {
    var e := Encode(List(items));
    var buf := e + rest;
    HeadEncoded(List(items), rest);
    var h := ReadKind(buf).value;
    assert e[h.tagSize..] == buf[h.tagSize..h.totalSize];
    CountEncoded(items);
    DecNodeList(s, db, prefix, dbHash, buf, h, |items|);
  }

  /** `dec_short` on a leaf with its hash or a small value. */
  lemma DecodeLeafContent(s: Schema, db: Db, prefix: Path, key: Path, content: Bytes, length: nat, dbHash: Option<Hash>, rest: Bytes)
    requires IsKey(key, length) && length <= KEY_LENGTH
    requires |content| == HASH_LENGTH || 0 < |content| <= s.maxInTrie
    ensures DecNode(s, db, prefix, dbHash, Encode(List([Str(Compact(key)), Str(content)])) + rest) ==
            Some((if |content| == HASH_LENGTH then Short(key, Value(Absent), Some(content))
                  else Short(key, Value(Cached(content)), dbHash), rest))
  {
    var k, v := Str(Compact(key)), Str(content);
    KeyIsHexPath(key, length);
    CompactRoundTrip(key);
    SmallString(Compact(key));
    SmallString(content);
    EncodeAllTwo(k, v);
    SmallHeader(0xC0, 0xF7, |EncodeAll([k, v])|);
    DecodeListAsShort(s, db, prefix, dbHash, [k, v], rest);
    SplitEncodedString(Compact(key), Encode(v));
    SplitEncodedString(content, []);
    assert Encode(v) + [] == Encode(v);
  }

  /** `dec_short` on a leaf with only its key. */
  lemma DecodeLeafKey(s: Schema, db: Db, prefix: Path, key: Path, length: nat, dbHash: Option<Hash>, rest: Bytes)
    requires IsKey(key, length) && length <= KEY_LENGTH
    requires prefix + key in db.values
    ensures DecNode(s, db, prefix, dbHash, Encode(List([Str(Compact(key))])) + rest) ==
            Some((Short(key, Value(Cached(db.values[prefix + key])), dbHash), rest))
  {
    var k := Str(Compact(key));
    KeyIsHexPath(key, length);
    CompactRoundTrip(key);
    SmallString(Compact(key));
    EncodeAllOne(k);
    SmallHeader(0xC0, 0xF7, |EncodeAll([k])|);
    DecodeListAsShort(s, db, prefix, dbHash, [k], rest);
    SplitEncodedString(Compact(key), []);
    assert Encode(k) + [] == Encode(k);
  }

  /** What `dec_short` makes of the three forms of a leaf. */
  lemma DecodeLeaf(s: Schema, db: Db, prefix: Path, t: Trie, length: nat, dbHash: Option<Hash>, isRoot: bool, rest: Bytes)
    requires Canonical(t, length) && length <= KEY_LENGTH && t.Leaf?
    requires prefix + t.key in db.values && db.values[prefix + t.key] == t.val
    ensures var byHash := isRoot || Large(s, t);
            DecNode(s, db, prefix, dbHash, Encode(StoreItem(s, t, isRoot)) + rest) ==
            Some((Short(t.key, Value(if byHash then Absent else Cached(t.val)),
                        if byHash then Some(HashOf(s, t)) else dbHash), rest))
  {
    var k := Str(Compact(t.key));
    if isRoot || Large(s, t) {
      assert [k] + [Str(HashOf(s, t))] == [k, Str(HashOf(s, t))];
      DecodeLeafContent(s, db, prefix, t.key, HashOf(s, t), length, dbHash, rest);
    } else if |t.val| <= s.maxInTrie {
      assert [k] + [Str(t.val)] == [k, Str(t.val)];
      DecodeLeafContent(s, db, prefix, t.key, t.val, length, dbHash, rest);
    } else {
      assert [k] + [] == [k];
      DecodeLeafKey(s, db, prefix, t.key, length, dbHash, rest);
    }
  }

  /** What `dec_short` finds behind an extension's key. */
  lemma DecodeExt(s: Schema, db: Db, prefix: Path, t: Trie, length: nat, dbHash: Option<Hash>, isRoot: bool, rest: Bytes)
    requires Canonical(t, length) && length <= KEY_LENGTH && t.Ext?
    requires DecNode(s, db, prefix + t.key, None, Encode(StoreRef(s, t.child)) + []).Some?
    ensures var child := DecNode(s, db, prefix + t.key, None, Encode(StoreRef(s, t.child)) + []).value.0;
            DecNode(s, db, prefix, dbHash, Encode(StoreItem(s, t, isRoot)) + rest) ==
            Some((Short(t.key, child,
                        if child.HashRef? && dbHash.None? then Some(s.keccak(Encode(StoreItem(s, t, isRoot)))) else dbHash),
                  rest))
  {
    var item := StoreItem(s, t, isRoot);
    var e := Encode(item);
    ExtStoreBound(s, t, length, isRoot);
    NibblesAreHexPath(t.key);
    CompactRoundTrip(t.key);
    var k := Str(Compact(t.key));
    DecodeListAsShort(s, db, prefix, dbHash, item.items, rest);
    EncodeAllTwo(k, StoreRef(s, t.child));
    SplitEncodedString(Compact(t.key), Encode(StoreRef(s, t.child)));
    assert Encode(StoreRef(s, t.child)) + [] == Encode(StoreRef(s, t.child));
  }

  /** An extension with a hashed child has the same bytes in both forms. */
  lemma ExtFormsAgree(s: Schema, t: Trie, isRoot: bool)
    requires t.Ext? && t.child.Branch? && Large(s, t.child)
    ensures StoreItem(s, t, isRoot) == HashItem(s, t)
    ensures Large(s, t)
  {
    var h := Str(HashOf(s, t.child));
    HashStringSize(HashOf(s, t.child));
    EncodeAllTwo(Str(Compact(t.key)), h);
  }

  // ---------------------------------------------------------------------------------
  // Decoding gives a node for the stored trie
  // ---------------------------------------------------------------------------------

  /** A child slot of a stored node reads back. */
  lemma {:induction false} DecodeRef(s: Schema, db: Db, prefix: Path, t: Trie, length: nat, rest: Bytes)
    requires Canonical(t, length) && length <= KEY_LENGTH && prefix != []
    requires NodesIn(s, db.nodes, t) && ValuesInDb(db.values, prefix, t)
    ensures var r := DecNode(s, db, prefix, None, Encode(StoreRef(s, t)) + rest);
            r.Some? && r.value.1 == rest && Denotes(s, db, prefix, r.value.0, t) &&
            Settled(s, r.value.0, t) && (r.value.0.HashRef? ==> t.Branch? && Large(s, t))
    decreases t, 3, 0
  {
    if t == Nil {
      HeadEncoded(Str([]), rest);
    } else if t.Branch? && Large(s, t) {
      HashStringSize(HashOf(s, t));
      HeadEncoded(Str(HashOf(s, t)), rest);
    } else {
      DecodeItem(s, db, prefix, t, length, None, rest);
    }
  }

  /** A stored node reads back under its own hash, or in line. */
  lemma {:induction false} DecodeItem(s: Schema, db: Db, prefix: Path, t: Trie, length: nat, dbHash: Option<Hash>, rest: Bytes)
    requires Canonical(t, length) && length <= KEY_LENGTH && t != Nil
    requires NodesIn(s, db.nodes, t) && ValuesInDb(db.values, prefix, t)
    requires dbHash.Some? ==> dbHash == Some(HashOf(s, t)) && (prefix == [] || (t.Branch? && Large(s, t)))
    requires prefix == [] || dbHash.Some? ==> Stored(s, db, prefix, t)
    requires dbHash.None? && t.Branch? ==> !Large(s, t)
    ensures var r := DecNode(s, db, prefix, dbHash, Encode(StoreItem(s, t, prefix == [])) + rest);
            r.Some? && r.value.1 == rest && Denotes(s, db, prefix, r.value.0, t) &&
            (r.value.0.Short? || r.value.0.Full?) &&
            (r.value.0.Full? ==> r.value.0.cachedHash == dbHash)
    decreases t, 2, 0
  {
    match t
    case Leaf(key, val) =>
      DecodeLeaf(s, db, prefix, t, length, dbHash, prefix == [], rest);
    case Ext(key, child) =>
      DecodeRef(s, db, prefix + key, child, length - |key|, []);
      DecodeExtItem(s, db, prefix, t, length, dbHash, rest);
    case Branch(children) =>
      DecodeChildren(s, db, prefix, t, length, 0);
      DecodeBranchItem(s, db, prefix, t, length, dbHash, rest);
  }

  lemma DecodeExtItem(s: Schema, db: Db, prefix: Path, t: Trie, length: nat, dbHash: Option<Hash>, rest: Bytes)
    requires Canonical(t, length) && length <= KEY_LENGTH && t.Ext?
    requires dbHash.Some? ==> dbHash == Some(HashOf(s, t)) && prefix == []
    requires prefix == [] ==> Stored(s, db, prefix, t)
    requires var r := DecNode(s, db, prefix + t.key, None, Encode(StoreRef(s, t.child)) + []);
             r.Some? && Denotes(s, db, prefix + t.key, r.value.0, t.child) &&
             Settled(s, r.value.0, t.child) && (r.value.0.HashRef? ==> Large(s, t.child))
    ensures var r := DecNode(s, db, prefix, dbHash, Encode(StoreItem(s, t, prefix == [])) + rest);
            r.Some? && r.value.1 == rest && Denotes(s, db, prefix, r.value.0, t) && r.value.0.Short?
  {
    DecodeExt(s, db, prefix, t, length, dbHash, prefix == [], rest);
    var c := DecNode(s, db, prefix + t.key, None, Encode(StoreRef(s, t.child)) + []).value.0;
    if c.HashRef? { ExtFormsAgree(s, t, prefix == []); }
  }

  lemma DecodeBranchItem(s: Schema, db: Db, prefix: Path, t: Trie, length: nat, dbHash: Option<Hash>, rest: Bytes)
    requires Canonical(t, length) && length <= KEY_LENGTH && t.Branch?
    requires dbHash.Some? ==> dbHash == Some(HashOf(s, t)) && (prefix == [] || Large(s, t)) && Stored(s, db, prefix, t)
    requires var r := DecChildren(s, db, prefix, EncodeAll(StoreRefs(s, t.children[0..])), 0);
             r.Some? && DenoteFrom(s, db, prefix, r.value, t, 0)
    ensures var r := DecNode(s, db, prefix, dbHash, Encode(StoreItem(s, t, prefix == [])) + rest);
            r.Some? && r.value.1 == rest && Denotes(s, db, prefix, r.value.0, t) &&
            r.value.0.Full? && r.value.0.cachedHash == dbHash
  {
    var items := StoreRefs(s, t.children);
    var buf := Encode(List(items)) + rest;
    StoreBound(s, t, length, prefix == []);
    HeadEncoded(List(items), rest);
    CountEncoded(items);
    assert t.children[0..] == t.children;
    DecNodeList(s, db, prefix, dbHash, buf, ReadKind(buf).value, ARITY);
  }

  lemma StoreRefsFrom(s: Schema, ts: seq<Trie>, i: nat)
    requires i < |ts|
    ensures EncodeAll(StoreRefs(s, ts[i..])) == Encode(StoreRef(s, ts[i])) + EncodeAll(StoreRefs(s, ts[i + 1..]))
  {
    var items := StoreRefs(s, ts[i..]);
    assert ts[i..][1..] == ts[i + 1..];
    assert items[1..] == StoreRefs(s, ts[i + 1..]);
  }

  /** The nodes `ns` stand for the children of t from `i` on. */
  ghost predicate DenoteFrom(s: Schema, db: Db, prefix: Path, ns: seq<Node>, t: Trie, i: nat)
    requires t.Branch? && |t.children| == ARITY && i <= ARITY
  {
    |ns| == ARITY - i &&
    forall j :: 0 <= j < |ns| ==> Denotes(s, db, prefix + [i + j], ns[j], t.children[i + j])
  }

  lemma DenoteOneMore(s: Schema, db: Db, prefix: Path, n: Node, ns: seq<Node>, t: Trie, i: nat)
    requires t.Branch? && |t.children| == ARITY && i < ARITY
    requires Denotes(s, db, prefix + [i], n, t.children[i])
    requires DenoteFrom(s, db, prefix, ns, t, i + 1)
    ensures DenoteFrom(s, db, prefix, [n] + ns, t, i)
  {
    var all := [n] + ns;
    forall j | 0 <= j < |all| ensures Denotes(s, db, prefix + [i + j], all[j], t.children[i + j]) {
      if j > 0 {
        assert all[j] == ns[j - 1];
        assert i + 1 + (j - 1) == i + j;
      }
    }
  }

  lemma DecChildrenStep(s: Schema, db: Db, prefix: Path, enc: Bytes, i: nat, child: Node, rest: Bytes)
    requires i < ARITY && DecNode(s, db, prefix + [i], None, enc) == Some((child, rest))
    requires DecChildren(s, db, prefix, rest, i + 1).Some?
    ensures DecChildren(s, db, prefix, enc, i) == Some([child] + DecChildren(s, db, prefix, rest, i + 1).value)
  {
  }

  /** What the database holds of a branch it holds of each child. */
  lemma ChildInDb(s: Schema, db: Db, prefix: Path, t: Trie, length: nat, i: nat)
    requires Canonical(t, length) && t.Branch? && i < ARITY
    requires NodesIn(s, db.nodes, t) && ValuesInDb(db.values, prefix, t)
    ensures |t.children| == ARITY && length > 0 && Canonical(t.children[i], length - 1)
    ensures NodesIn(s, db.nodes, t.children[i]) && ValuesInDb(db.values, prefix + [i], t.children[i])
  {
  }

  /** The decoded slot of child i. */
  lemma DecodeSlot(s: Schema, db: Db, prefix: Path, t: Trie, i: nat, child: Option<(Node, Bytes)>, rest: Bytes)
    requires t.Branch? && |t.children| == ARITY && i < ARITY
    requires child.Some? && child.value.1 == rest && Denotes(s, db, prefix + [i], child.value.0, t.children[i])
    requires var enc := EncodeAll(StoreRefs(s, t.children[i..]));
             DecNode(s, db, prefix + [i], None, enc) == child
    requires var r := DecChildren(s, db, prefix, rest, i + 1); r.Some? && DenoteFrom(s, db, prefix, r.value, t, i + 1)
    ensures var r := DecChildren(s, db, prefix, EncodeAll(StoreRefs(s, t.children[i..])), i);
            r.Some? && DenoteFrom(s, db, prefix, r.value, t, i)
  {
    DecChildrenStep(s, db, prefix, EncodeAll(StoreRefs(s, t.children[i..])), i, child.value.0, rest);
    DenoteOneMore(s, db, prefix, child.value.0, DecChildren(s, db, prefix, rest, i + 1).value, t, i);
  }

  lemma DecodeNoChildren(s: Schema, db: Db, prefix: Path, t: Trie, length: nat)
    requires Canonical(t, length) && t.Branch?
    ensures |t.children| == ARITY
    ensures var r := DecChildren(s, db, prefix, EncodeAll(StoreRefs(s, t.children[ARITY..])), ARITY);
            r.Some? && DenoteFrom(s, db, prefix, r.value, t, ARITY)
  {
  }

  /** The loop of `dec_full`. */
  lemma {:induction false} DecodeChildren(s: Schema, db: Db, prefix: Path, t: Trie, length: nat, i: nat)
    requires Canonical(t, length) && length <= KEY_LENGTH && t.Branch? && i <= ARITY
    requires NodesIn(s, db.nodes, t) && ValuesInDb(db.values, prefix, t)
    ensures var r := DecChildren(s, db, prefix, EncodeAll(StoreRefs(s, t.children[i..])), i);
            r.Some? && DenoteFrom(s, db, prefix, r.value, t, i)
    decreases t, 1, ARITY - i
  {
    hide Denotes, Stored, DecNode, NodesIn, ValuesInDb, EncodeAll, StoreRefs, Canonical, DecShort, DecChildren, DenoteFrom;
    if i == ARITY {
      DecodeNoChildren(s, db, prefix, t, length);
    } else {
      ChildInDb(s, db, prefix, t, length, i);
      var rest := EncodeAll(StoreRefs(s, t.children[i + 1..]));
      StoreRefsFrom(s, t.children, i);
      DecodeRef(s, db, prefix + [i], t.children[i], length - 1, rest);
      DecodeChildren(s, db, prefix, t, length, i + 1);
      DecodeSlot(s, db, prefix, t, i, DecNode(s, db, prefix + [i], None, EncodeAll(StoreRefs(s, t.children[i..]))), rest);
    }
  }

  /** `Writer.resolve` and `Reader.resolve`: the node decoded from the entry of a hash. */
  function Resolve(s: Schema, db: Db, prefix: Path, h: Hash): (r: Option<Node>)
  {
    if h !in db.nodes then None
    else
      var d := DecNode(s, db, prefix, Some(h), db.nodes[h]);
      if d.None? then None else Some(d.value.0)
  }

  /** Resolving a hash that stands for a trie never panics, and gives a short or full node
      that stands for the same trie. */
  lemma ResolveDenotes(s: Schema, db: Db, prefix: Path, h: Hash, t: Trie, length: nat)
    requires Canonical(t, length) && length <= KEY_LENGTH
    requires Denotes(s, db, prefix, HashRef(h), t)
    ensures var r := Resolve(s, db, prefix, h);
            r.Some? && Denotes(s, db, prefix, r.value, t) && (r.value.Short? || r.value.Full?) &&
            (r.value.Full? ==> r.value.cachedHash == Some(h))
  {
    var e := Encode(StoreItem(s, t, prefix == []));
    assert e + [] == e;
    DecodeItem(s, db, prefix, t, length, Some(h), []);
  }

  /** Reopening: a trie that is stored completely is denoted by its root hash. */
  lemma ReopenDenotes(s: Schema, db: Db, t: Trie)
    requires t != Nil && Stored(s, db, [], t)
    ensures Denotes(s, db, [], HashRef(HashOf(s, t)), t)
  {
  }
}
