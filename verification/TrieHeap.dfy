/** The mutable nodes of ebla/trie/layout.go, and the database behind the trie.  Short and full nodes
    are objects whose fields the writer overwrites; `view` is the `TrieNode.Node` a well-formed
    object amounts to and `repr` the objects it owns. */
module TrieHeap {
  import opened Wrappers
  import opened Rlp
  import opened Trie
  import opened TrieNode
  import opened TrieMap

  /** The interface `node`. */
  datatype Link =
    | NilLink
    | HashLink(hash: Hash)
    | ValueLink(cell: Cell)
    | ShortLink(short: ShortNode)
    | FullLink(full: FullNode)

  /** The object a link leads to. */
  ghost function Head(l: Link): (r: set<object>)
  {
    if l.ShortLink? then {l.short} else if l.FullLink? then {l.full} else {}
  }

  /** All objects below a link. */
  ghost function Repr(l: Link): (r: set<object>)
    reads Head(l)
  {
    if l.ShortLink? then l.short.repr else if l.FullLink? then l.full.repr else {}
  }

  ghost function View(l: Link): (n: Node)
    reads Head(l)
  {
    match l
    case NilLink => NoNode
    case HashLink(h) => HashRef(h)
    case ValueLink(c) => Value(c)
    case ShortLink(n) => n.view
    case FullLink(n) => n.view
  }

  ghost predicate ValidLink(l: Link)
    reads Head(l), Repr(l)
    ensures ValidLink(l) ==> Head(l) <= Repr(l)
    ensures ValidLink(l) ==> (View(l).Short? <==> l.ShortLink?) && (View(l).Full? <==> l.FullLink?)
    decreases Repr(l), 1
  {
    (l.ShortLink? ==> l.short.Valid()) && (l.FullLink? ==> l.full.Valid())
  }

  class ShortNode {
    var keyPart: Path
    var val: Link
    var hash: Option<Hash>
    ghost var repr: set<object>
    ghost var view: Node

    ghost predicate Valid()
      reads this, repr
      ensures Valid() ==> this in repr && view.Short?
      decreases repr, 0
    {
      this in repr &&
      Head(val) <= repr && Repr(val) <= repr && this !in Repr(val) && ValidLink(val) &&
      view == Short(keyPart, View(val), hash)
    }

    constructor (k: Path, v: Link, h: Option<Hash>)
      requires ValidLink(v)
      ensures Valid() && fresh(this) && repr == {this} + Repr(v)
      ensures view == Short(k, View(v), h)
      ensures keyPart == k && val == v && hash == h
    {
      keyPart, val, hash := k, v, h;
      repr := {this} + Repr(v);
      view := Short(k, View(v), h);
    }

    /** Overwrites the fields of the node. */
    method Set(k: Path, v: Link, h: Option<Hash>)
      requires ValidLink(v) && this !in Repr(v)
      modifies this
      ensures Valid() && repr == {this} + Repr(v)
      ensures view == Short(k, View(v), h)
      ensures keyPart == k && val == v && hash == h
    {
      keyPart, val, hash := k, v, h;
      repr := {this} + Repr(v);
      view := Short(k, View(v), h);
    }
  }

  /** No object is shared between different children. */
  ghost predicate Apart(children: seq<Link>)
    reads set i | 0 <= i < |children|, o | o in Head(children[i]) :: o
  {
    forall i, j :: 0 <= i < j < |children| ==> Repr(children[i]) !! Repr(children[j])
  }

  class FullNode {
    var children: seq<Link>
    var hash: Option<Hash>
    ghost var repr: set<object>
    ghost var view: Node

    ghost predicate Valid()
      reads this, repr
      ensures Valid() ==> this in repr && view.Full?
      decreases repr, 0
    {
      this in repr && |children| == ARITY &&
      (forall i :: 0 <= i < ARITY ==> Head(children[i]) <= repr) &&
      (forall i :: 0 <= i < ARITY ==> Repr(children[i]) <= repr && this !in Repr(children[i])) &&
      (forall i :: 0 <= i < ARITY ==> ValidLink(children[i])) &&
      Apart(children) &&
      view.Full? && view.cachedHash == hash && |view.children| == ARITY &&
      (forall i :: 0 <= i < ARITY ==> view.children[i] == View(children[i]))
    }

    /** A full node over given children, which own the objects `owned`. */
    constructor (cs: seq<Link>, h: Option<Hash>, ghost views: seq<Node>, ghost owned: set<object>)
      requires |cs| == |views| == ARITY && Apart(cs)
      requires forall i :: 0 <= i < ARITY ==> ValidLink(cs[i]) && Repr(cs[i]) <= owned && View(cs[i]) == views[i]
      ensures Valid() && fresh(this) && repr == {this} + owned
      ensures view == Full(views, h) && children == cs && hash == h
    {
      children, hash := cs, h;
      repr := {this} + owned;
      view := Full(views, h);
    }

    /** Everything `Valid` asks for except about child i; `rest` are the objects of the node
        and its other children. */
    ghost predicate ValidBut(i: nat, rest: set<object>)
      reads this, rest
    {
      this in rest && |children| == ARITY && view.Full? && |view.children| == ARITY &&
      (forall j :: 0 <= j < ARITY && j != i ==> Head(children[j]) <= rest) &&
      (forall j :: 0 <= j < ARITY && j != i ==> Repr(children[j]) <= rest && this !in Repr(children[j])) &&
      (forall j :: 0 <= j < ARITY && j != i ==> ValidLink(children[j]) && View(children[j]) == view.children[j]) &&
      (forall j, k :: 0 <= j < k < ARITY && j != i && k != i ==> Repr(children[j]) !! Repr(children[k]))
    }

    /** Overwrites child i and the cached hash. */
    method Replace(i: nat, c: Link, h: Option<Hash>, ghost rest: set<object>)
      requires i < ARITY && ValidBut(i, rest) && ValidLink(c) && Repr(c) !! rest
      modifies this
      ensures Valid()
      ensures children == old(children)[i := c] && hash == h
      ensures view == Full(old(view.children)[i := View(c)], h)
      ensures repr == rest + Repr(c)
    {
      ghost var cs, views := children, view.children;
      children, hash := children[i := c], h;
      repr := rest + Repr(c);
      view := Full(views[i := View(c)], h);
      assert ValidLink(c) && Repr(c) == old(Repr(c)) && View(c) == old(View(c));
      forall j | 0 <= j < ARITY && j != i
        ensures Head(cs[j]) <= rest && Repr(cs[j]) <= rest && this !in Repr(cs[j])
        ensures ValidLink(cs[j]) && View(cs[j]) == views[j] && Repr(cs[j]) == old(Repr(cs[j]))
      {
        assert old(Repr(cs[j]) <= rest && this !in Repr(cs[j]) && ValidLink(cs[j]));
      }
    }

    method SetHash(h: Option<Hash>)
      requires Valid()
      modifies this
      ensures Valid() && children == old(children) && hash == h && repr == old(repr)
      ensures view == Full(old(view.children), h)
    {
      ghost var cs := children;
      hash := h;
      view := Full(view.children, h);
      forall j | 0 <= j < ARITY
        ensures Head(cs[j]) <= repr && Repr(cs[j]) <= repr && this !in Repr(cs[j])
        ensures ValidLink(cs[j]) && View(cs[j]) == view.children[j] && Repr(cs[j]) == old(Repr(cs[j]))
      {
        assert old(ValidLink(cs[j]) && Repr(cs[j]) <= repr && this !in Repr(cs[j]));
      }
    }
  }

  /** A well-formed full node apart from its child i, and what child i owns apart from it. */
  lemma SetAside(n: FullNode, i: nat) returns (rest: set<object>)
    requires n.Valid() && i < ARITY
    ensures rest == n.repr - Repr(n.children[i])
    ensures n.ValidBut(i, rest)
    ensures Repr(n.children[i]) <= n.repr && ValidLink(n.children[i])
  {
    rest := n.repr - Repr(n.children[i]);
    forall j | 0 <= j < ARITY && j != i
      ensures Head(n.children[j]) <= rest && Repr(n.children[j]) <= rest
    {
      assert Head(n.children[j]) <= Repr(n.children[j]);
      assert Repr(n.children[j]) !! Repr(n.children[i]);
    }
  }

  // =================================================================================
  // The database behind the trie, and what a change of the database means for what nodes stand
  // for.
  // =================================================================================

  /** `IO`: the two tables. */
  class Database {
    var nodes: map<Hash, Bytes>
    var values: map<Path, Bytes>

    constructor ()
      ensures nodes == map[] && values == map[]
    {
      nodes, values := map[], map[];
    }

    function D(): (db: Db)
      reads this
    {
      Db(nodes, values)
    }

    method PutNode(h: Hash, bytes: Bytes)
      modifies this
      ensures nodes == old(nodes)[h := bytes] && values == old(values)
    {
      nodes := nodes[h := bytes];
    }

    /** `PutValue`; None is the nil value of a delete. */
    method PutValue(key: Path, v: Option<Bytes>)
      modifies this
      ensures nodes == old(nodes)
      ensures values == if v.Some? then old(values)[key := v.value] else old(values) - {key}
    {
      values := if v.Some? then values[key := v.value] else values - {key};
    }
  }

  /** Every binding of a is one of b. */
  ghost predicate Within<K(!new), V>(a: map<K, V>, b: map<K, V>)
  {
    forall k :: k in a ==> k in b && a[k] == b[k]
  }

  /** The values below q are the same in both tables. */
  ghost predicate SameBelow(a: map<Path, Bytes>, b: map<Path, Bytes>, q: Path)
  {
    forall k :: q <= k ==> (k in a <==> k in b) && (k in a ==> a[k] == b[k])
  }

  /** From a to b no value is dropped, and all that is written belongs to keys of t below p. */
  ghost predicate Fills(a: map<Path, Bytes>, b: map<Path, Bytes>, p: Path, t: Trie)
  {
    (forall k :: k in a ==> k in b) &&
    (forall k :: k in b ==> (k in a && a[k] == b[k]) || (p <= k && Get(t, k[|p|..]).Some?))
  }

  lemma LongerPrefix(p: Path, s: Path, k: Path)
    requires p + s <= k
    ensures p <= k
  {
    assert p == (p + s)[..|p|] == k[..|p|];
  }

  lemma SameBelowLonger(a: map<Path, Bytes>, b: map<Path, Bytes>, q: Path, s: Path)
    requires SameBelow(a, b, q)
    ensures SameBelow(a, b, q + s)
  {
    forall k | q + s <= k ensures (k in a <==> k in b) && (k in a ==> a[k] == b[k]) {
      LongerPrefix(q, s, k);
    }
  }

  /** Changes below one child of a branch do not touch the keys below another. */
  lemma SiblingUntouched(a: map<Path, Bytes>, b: map<Path, Bytes>, p: Path, i: Byte, t: Trie, j: Byte)
    requires Fills(a, b, p + [i], t) && i != j
    ensures SameBelow(a, b, p + [j])
  {
    forall k | p + [j] <= k ensures (k in a <==> k in b) && (k in a ==> a[k] == b[k]) {
      assert (p + [i])[|p|] != (p + [j])[|p|];
      assert k[..|p| + 1] == p + [j];
    }
  }

  lemma FillsLeaf(a: map<Path, Bytes>, p: Path, t: Trie, v: Bytes)
    requires t.Leaf?
    ensures Fills(a, a[p + t.key := v], p, t)
  {
    assert (p + t.key)[|p|..] == t.key;
  }

  /** What is written for a child is written for the node above it. */
  lemma FillsAbove(a: map<Path, Bytes>, b: map<Path, Bytes>, p: Path, s: Path, u: Trie, t: Trie)
    requires Fills(a, b, p + s, u)
    requires (t.Ext? && s == t.key && u == t.child) || (t.Branch? && |s| == 1 && s[0] < |t.children| && u == t.children[s[0]])
    ensures Fills(a, b, p, t)
  {
    forall k | p + s <= k && Get(u, k[|p + s|..]).Some? ensures p <= k && Get(t, k[|p|..]).Some? {
      LongerPrefix(p, s, k);
      var q := k[|p|..];
      assert q[..|s|] == k[..|p + s|][|p|..] == s && q[|s|..] == k[|p + s|..];
    }
  }

  lemma FillsThen(a: map<Path, Bytes>, b: map<Path, Bytes>, c: map<Path, Bytes>, p: Path, t: Trie)
    requires Fills(a, b, p, t) && Fills(b, c, p, t)
    ensures Fills(a, c, p, t)
  {
  }

  // ---------------------------------------------------------------------------------
  // A value table without anything else than the trie
  // ---------------------------------------------------------------------------------

  /** Only keys of t have a value. */
  ghost predicate NoStray(values: map<Path, Bytes>, t: Trie)
  {
    forall k :: k in values ==> IsKey(k, KEY_LENGTH) && Get(t, k).Some?
  }

  lemma {:induction false} FoundIsKey(t: Trie, q: Path, length: nat)
    requires Canonical(t, length) && Get(t, q).Some?
    ensures IsKey(q, length)
    decreases t
  {
    hide IsKey, TwoPresent;
    if t.Ext? {
      FoundIsKey(t.child, q[|t.key|..], length - |t.key|);
      BehindNibbles(t.key, q, length);
    } else if t.Branch? {
      FoundIsKey(t.children[q[0]], q[1..], length - 1);
      assert [q[0]] <= q && q[0] < 16;
      BehindNibbles([q[0]], q, length);
    }
  }

  lemma BehindNibbles(k: Path, q: Path, length: nat)
    requires k <= q && Nibbles(k) && |k| <= length && IsKey(q[|k|..], length - |k|)
    ensures IsKey(q, length)
  {
    KeyExtended(k, q[|k|..]);
    assert k + q[|k|..] == q;
  }

  lemma FilledHasNoStray(a: map<Path, Bytes>, b: map<Path, Bytes>, t: Trie)
    requires Canonical(t, KEY_LENGTH) && NoStray(a, t) && Fills(a, b, [], t)
    ensures NoStray(b, t)
  {
    forall k | k in b ensures IsKey(k, KEY_LENGTH) && Get(t, k).Some? {
      assert k[0..] == k;
      FoundIsKey(t, k, KEY_LENGTH);
    }
  }

  lemma {:induction false} FoundInTable(values: map<Path, Bytes>, prefix: Path, t: Trie, q: Path)
    requires ValuesInDb(values, prefix, t) && Get(t, q).Some?
    ensures prefix + q in values && values[prefix + q] == Get(t, q).value
    decreases t
  {
    match t
    case Leaf(_, _) =>
    case Ext(key, child) =>
      FoundInTable(values, prefix + key, child, q[|key|..]);
      assert prefix + key + q[|key|..] == prefix + q;
    case Branch(children) =>
      FoundInTable(values, prefix + [q[0]], children[q[0]], q[1..]);
      assert prefix + [q[0]] + q[1..] == prefix + q;
  }

  /** A table with all values of t and no others is the map that t represents. */
  lemma TableIsMap(values: map<Path, Bytes>, t: Trie, m: map<Path, Bytes>)
    requires ValuesInDb(values, [], t) && NoStray(values, t) && Represents(t, m)
    requires forall q :: q in m ==> IsKey(q, KEY_LENGTH)
    ensures values == m
  {
    forall q | q in values || q in m ensures q in values && q in m && values[q] == m[q] {
      FoundInTable(values, [], t, q);
      assert [] + q == q;
    }
  }

  // ---------------------------------------------------------------------------------
  // A growing node table and unchanged values keep every meaning
  // ---------------------------------------------------------------------------------

  lemma {:induction false} NodesInGrows(s: Schema, a: map<Hash, Bytes>, b: map<Hash, Bytes>, t: Trie)
    requires NodesIn(s, a, t) && Within(a, b)
    ensures NodesIn(s, b, t)
    decreases t
  {
    match t
    case Nil =>
    case Leaf(_, _) =>
    case Ext(_, child) => NodesInGrows(s, a, b, child);
    case Branch(children) =>
      forall i | 0 <= i < |children| ensures NodesIn(s, b, children[i]) {
        NodesInGrows(s, a, b, children[i]);
      }
  }

  lemma {:induction false} ValuesInStay(a: map<Path, Bytes>, b: map<Path, Bytes>, prefix: Path, t: Trie)
    requires ValuesInDb(a, prefix, t) && SameBelow(a, b, prefix)
    ensures ValuesInDb(b, prefix, t)
    decreases t
  {
    match t
    case Nil =>
    case Leaf(key, _) =>
      assert prefix <= prefix + key;
    case Ext(key, child) =>
      SameBelowLonger(a, b, prefix, key);
      ValuesInStay(a, b, prefix + key, child);
    case Branch(children) =>
      forall i | 0 <= i < |children| && i < 256 ensures ValuesInDb(b, prefix + [i], children[i]) {
        SameBelowLonger(a, b, prefix, [i]);
        ValuesInStay(a, b, prefix + [i], children[i]);
      }
  }

  lemma StoredStays(s: Schema, a: Db, b: Db, prefix: Path, t: Trie)
    requires Stored(s, a, prefix, t) && Within(a.nodes, b.nodes) && SameBelow(a.values, b.values, prefix)
    ensures Stored(s, b, prefix, t)
  {
    NodesInGrows(s, a.nodes, b.nodes, t);
    ValuesInStay(a.values, b.values, prefix, t);
  }

  lemma HashOkStays(s: Schema, a: Db, b: Db, prefix: Path, h: Option<Hash>, t: Trie)
    requires HashOk(s, a, prefix, h, t) && Within(a.nodes, b.nodes) && SameBelow(a.values, b.values, prefix)
    ensures HashOk(s, b, prefix, h, t)
  {
    if h.Some? && (prefix == [] || t.Branch?) { StoredStays(s, a, b, prefix, t); }
  }

  lemma {:induction false} DenotesStays(s: Schema, a: Db, b: Db, prefix: Path, n: Node, t: Trie)
    requires Denotes(s, a, prefix, n, t) && Within(a.nodes, b.nodes) && SameBelow(a.values, b.values, prefix)
    ensures Denotes(s, b, prefix, n, t)
    decreases n
  {
    match n
    case NoNode =>
    case HashRef(h) => StoredStays(s, a, b, prefix, t);
    case Value(_) =>
    case Short(key, val, h) =>
      HashOkStays(s, a, b, prefix, h, t);
      assert prefix <= prefix + key;
      if !val.Value? {
        SameBelowLonger(a.values, b.values, prefix, key);
        DenotesStays(s, a, b, prefix + key, val, t.child);
      }
    case Full(children, h) =>
      HashOkStays(s, a, b, prefix, h, t);
      forall i | 0 <= i < ARITY ensures Denotes(s, b, prefix + [i], children[i], t.children[i]) {
        SameBelowLonger(a.values, b.values, prefix, [i]);
        DenotesStays(s, a, b, prefix + [i], children[i], t.children[i]);
      }
  }
}
