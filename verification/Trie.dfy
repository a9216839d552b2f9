/** The fully resolved Merkle Patricia trie of ebla/trie: what the nodes in memory stand for
    once every hash has been looked up.  `Insert` and `Remove` take the branches of
    `mpt_insert` and `mpt_del`; the trie is shown to refine a finite map and to have one
    shape per map. */
module Trie {
  import opened Wrappers
  import opened Rlp

  /** A hex key or a part of one: nibbles, then possibly the terminator 16. */
  type Path = Bytes

  /** HexKeyLen: 64 nibbles and the terminator. */
  const KEY_LENGTH: nat := 65

  const ARITY: nat := 16

  datatype Trie =
    | Nil
    | Leaf(key: Path, val: Bytes)
    | Ext(key: Path, child: Trie)
    | Branch(children: seq<Trie>)

  predicate Nibbles(p: Path)
  {
    forall i :: 0 <= i < |p| ==> p[i] < 16
  }

  /** A hex key of the given length: nibbles ended by the terminator. */
  predicate IsKey(p: Path, length: nat)
  {
    |p| == length && length > 0 && p[length - 1] == 16 && Nibbles(p[..length - 1])
  }

  /** The shape every sequence of writes must keep: branches have sixteen children of which at
      least two are present, extensions lead to branches, no key part is empty, and leaf keys
      end in the terminator.  `length` is the number of key symbols still to come. */
  ghost predicate Canonical(t: Trie, length: nat)
    decreases t
  {
    match t
    case Nil => true
    case Leaf(key, val) => IsKey(key, length) && val != []
    case Ext(key, child) =>
      0 < |key| < length && Nibbles(key) && child.Branch? && Canonical(child, length - |key|)
    case Branch(children) =>
      |children| == ARITY && length >= 2 &&
      (forall i :: 0 <= i < ARITY ==> Canonical(children[i], length - 1)) &&
      TwoPresent(children)
  }

  ghost predicate TwoPresent(children: seq<Trie>)
  {
    exists i, j :: 0 <= i < j < |children| && children[i] != Nil && children[j] != Nil
  }

  /** The value stored under a key. */
  function Get(t: Trie, q: Path): (r: Option<Bytes>)
    decreases t
  {
    match t
    case Nil => None
    case Leaf(key, val) => if key == q then Some(val) else None
    case Ext(key, child) => if key <= q then Get(child, q[|key|..]) else None
    case Branch(children) =>
      if |q| > 0 && q[0] < |children| then Get(children[q[0]], q[1..]) else None
  }

  // ---------------------------------------------------------------------------------
  // Common prefixes
  // ---------------------------------------------------------------------------------

  /** The length of the longest common prefix. */
  function CommonPrefix(a: Path, b: Path): (n: nat)
    ensures n <= |a| && n <= |b|
    ensures a[..n] == b[..n]
    ensures n < |a| && n < |b| ==> a[n] != b[n]
  {
    if a != [] && b != [] && a[0] == b[0] then
      var n := 1 + CommonPrefix(a[1..], b[1..]);
      assert a[..n] == [a[0]] + a[1..][..n - 1] && b[..n] == [b[0]] + b[1..][..n - 1];
      n
    else 0
  }

  /** `prefixLen`. */
  method PrefixLen(a: Path, b: Path) returns (i: nat)
    ensures i == CommonPrefix(a, b)
  {
    i := 0;
    var length := if |b| < |a| then |b| else |a|;
    while i < length
      invariant i <= length
      invariant a[..i] == b[..i]
    {
      if a[i] != b[i] { break; }
      i := i + 1;
    }
    CommonPrefixUnique(a, b, i);
  }

  /** A path is a prefix exactly when all of it is common. */
  lemma PrefixIffCommon(p: Path, k: Path)
    ensures k <= p <==> CommonPrefix(p, k) == |k|
  {
    assert k[..|k|] == k;
    if k <= p {
      assert p[..|k|] == k;
      CommonPrefixUnique(p, k, |k|);
    }
  }

  /** Two keys of the same length agree to the end only if they are the same. */
  lemma LeafCommonPrefix(p: Path, k: Path)
    requires |p| == |k|
    ensures CommonPrefix(p, k) == |p| <==> p == k
  {
    PrefixIffCommon(p, k);
  }

  /** Prefixes of one path are nested. */
  lemma PrefixesNest(a: Path, b: Path, q: Path)
    requires |a| <= |b|
    ensures b <= q ==> (a <= q <==> a <= b) && (|a| < |b| ==> q[|a|] == b[|a|])
  {
    if b <= q {
      assert q[..|a|] == b[..|a|];
      assert a <= q <==> a == q[..|a|];
      assert a <= b <==> a == b[..|a|];
    }
  }

  lemma CommonPrefixUnique(a: Path, b: Path, n: nat)
    requires n <= |a| && n <= |b| && a[..n] == b[..n]
    requires n < |a| && n < |b| ==> a[n] != b[n]
    ensures CommonPrefix(a, b) == n
  {
    var m := CommonPrefix(a, b);
    assert forall i :: 0 <= i < m ==> a[i] == a[..m][i] && b[i] == b[..m][i];
    assert forall i :: 0 <= i < n ==> a[i] == a[..n][i] && b[i] == b[..n][i];
  }

  /** Where two paths part, one being a key and the other a key or a nibble string inside its
      length, both continue with nibbles. */
  lemma PartWithNibbles(p: Path, k: Path)
    requires IsKey(p, |p|) && CommonPrefix(p, k) < |k|
    requires IsKey(k, |p|) || (Nibbles(k) && |k| < |p|)
    requires p != k
    ensures var m := CommonPrefix(p, k);
            m < |p| - 1 && p[m] < 16 && k[m] < 16 && p[m] != k[m]
  {
    var m := CommonPrefix(p, k);
    assert p[..|p|] == p && k[..|k|] == k;
    assert m < |p|;
    assert forall i :: 0 <= i < |p| - 1 ==> p[i] == p[..|p| - 1][i];
    assert IsKey(k, |p|) ==> forall i :: 0 <= i < |p| - 1 ==> k[i] == k[..|p| - 1][i];
  }

  lemma KeySuffix(p: Path, n: nat)
    requires IsKey(p, |p|) && n < |p|
    ensures IsKey(p[n..], |p| - n)
  {
    assert p[n..][..|p| - n - 1] == p[n..|p| - 1];
    forall i | 0 <= i < |p| - n - 1 ensures p[n..][i] < 16 {
      assert p[n..][i] == p[..|p| - 1][n + i];
    }
  }

  /** A key of two or more symbols starts with a nibble and goes on with a key. */
  lemma KeyHead(p: Path)
    requires IsKey(p, |p|) && |p| >= 2
    ensures p[0] < 16 && IsKey(p[1..], |p| - 1)
  {
    KeySuffix(p, 1);
    assert p[0] == p[..|p| - 1][0];
  }

  lemma KeyExtended(k: Path, q: Path)
    requires Nibbles(k) && IsKey(q, |q|)
    ensures IsKey(k + q, |k| + |q|)
  {
    var p := k + q;
    forall i | 0 <= i < |p| - 1 ensures p[i] < 16 {
      if i >= |k| { assert p[i] == q[..|q| - 1][i - |k|]; }
    }
  }

  // ---------------------------------------------------------------------------------
  // Writing
  // ---------------------------------------------------------------------------------

  /** A fresh full node. */
  function NoChildren(): (cs: seq<Trie>)
    ensures |cs| == ARITY && forall i :: 0 <= i < ARITY ==> cs[i] == Nil
  {
    seq(ARITY, _ => Nil)
  }

  /** `shift` downwards: the short node `t` below a new branch, its key part cut to `suffix`. */
  function ShiftDown(t: Trie, suffix: Path): (r: Trie)
    requires t.Leaf? || t.Ext?
  {
    match t
    case Leaf(_, val) => Leaf(suffix, val)
    case Ext(_, child) => if |suffix| == 0 then child else Ext(suffix, child)
  }

  /** The junction where a new key leaves the key part of short node `t` after `m` symbols. */
  function Split(t: Trie, p: Path, v: Bytes, m: nat): (r: Trie)
    requires t.Leaf? || t.Ext?
    requires m < |p| && m < |t.key| && p[m] < 16 && t.key[m] < 16
  {
    var shifted := NoChildren()[t.key[m] := ShiftDown(t, t.key[m + 1..])];
    var junction := Branch(shifted[p[m] := Leaf(p[m + 1..], v)]);
    if m == 0 then junction else Ext(p[..m], junction)
  }

  /** `mpt_insert` on a resolved trie; `p` is the part of the key not yet walked. */
  function Insert(t: Trie, p: Path, v: Bytes): (r: Trie)
    requires IsKey(p, |p|) && Canonical(t, |p|)
    decreases t
  {
    match t
    case Nil => Leaf(p, v)
    case Leaf(key, _) =>
      var m := CommonPrefix(p, key);
      if m == |p| then Leaf(key, v)
      else
        PartWithNibbles(p, key);
        Split(t, p, v, m)
    case Ext(key, child) =>
      var m := CommonPrefix(p, key);
      if m == |key| then
        KeySuffix(p, m);
        Ext(key, Insert(child, p[m..], v))
      else
        PartWithNibbles(p, key);
        Split(t, p, v, m)
    case Branch(children) =>
      KeySuffix(p, 1);
      Branch(children[p[0] := Insert(children[p[0]], p[1..], v)])
  }

  /** The index of the only present child other than `except`, if there is exactly one. */
  function OnlyChild(children: seq<Trie>, except: nat): (r: Option<nat>)
    requires |children| == ARITY
  {
    OnlyChildFrom(children, except, 0, None)
  }

  /** The loop of `mpt_del` over the children from `i` on; `found` is the child seen so far. */
  function OnlyChildFrom(children: seq<Trie>, except: nat, i: nat, found: Option<nat>): (r: Option<nat>)
    requires |children| == ARITY && i <= ARITY
    decreases ARITY - i
  {
    if i == ARITY then found
    else if children[i] != Nil && i != except then
      if found.Some? then None else OnlyChildFrom(children, except, i + 1, Some(i))
    else OnlyChildFrom(children, except, i + 1, found)
  }

  /** A trie below the nibbles `k`: short nodes take over `k`, a branch gets an extension. */
  function Prepend(k: Path, t: Trie): (r: Trie)
  {
    match t
    case Nil => Nil
    case Leaf(key, val) => Leaf(k + key, val)
    case Ext(key, child) => Ext(k + key, child)
    case Branch(_) => Ext(k, t)
  }

  /** `mpt_del` on a resolved trie; None is the `mpt_del_not_found` panic. */
  function Remove(t: Trie, p: Path): (r: Option<Trie>)
    requires IsKey(p, |p|) && Canonical(t, |p|)
    decreases t
  {
    match t
    case Nil => None
    case Leaf(key, _) => if CommonPrefix(p, key) != |key| then None else Some(Nil)
    case Ext(key, child) =>
      var m := CommonPrefix(p, key);
      if m != |key| then None
      else
        KeySuffix(p, m);
        var below := Remove(child, p[m..]);
        if below.None? then None else Some(Prepend(key, below.value))
    case Branch(children) =>
      KeySuffix(p, 1);
      var below := Remove(children[p[0]], p[1..]);
      if below.None? then None
      else
        OnlyChildIsChild(children, p[0]);
        var only := if below.value == Nil then OnlyChild(children, p[0]) else None;
        if only.None? then Some(Branch(children[p[0] := below.value]))
        else Some(Prepend([only.value], children[only.value]))
  }

  lemma {:induction false} OnlyChildFromMeaning(children: seq<Trie>, except: nat, i: nat, found: Option<nat>)
    requires |children| == ARITY && i <= ARITY && except < ARITY
    requires found.Some? ==> found.value < i && found.value != except && children[found.value] != Nil
    requires forall j :: 0 <= j < i && children[j] != Nil && j != except ==> found == Some(j)
    ensures var r := OnlyChildFrom(children, except, i, found);
            (r.Some? ==> r.value < ARITY && r.value != except && children[r.value] != Nil &&
                         forall j :: 0 <= j < ARITY && j != except && j != r.value ==> children[j] == Nil) &&
            (r.None? ==> (forall j :: 0 <= j < ARITY && j != except ==> children[j] == Nil) ||
                         TwoPresent(children[except := Nil]))
    decreases ARITY - i
  {
    if i < ARITY {
      if children[i] != Nil && i != except {
        if found.None? {
          OnlyChildFromMeaning(children, except, i + 1, Some(i));
        } else {
          var rest := children[except := Nil];
          assert rest[found.value] != Nil && rest[i] != Nil;
        }
      } else {
        OnlyChildFromMeaning(children, except, i + 1, found);
      }
    }
  }

  /** The scan finds a child exactly when it is the only one left. */
  lemma OnlyChildIsChild(children: seq<Trie>, except: nat)
    requires |children| == ARITY && except < ARITY
    ensures var r := OnlyChild(children, except);
            (r.Some? ==> r.value < ARITY && r.value != except && children[r.value] != Nil &&
                         forall j :: 0 <= j < ARITY && j != except && j != r.value ==> children[j] == Nil) &&
            (r.None? ==> (forall j :: 0 <= j < ARITY && j != except ==> children[j] == Nil) ||
                         TwoPresent(children[except := Nil]))
  {
    OnlyChildFromMeaning(children, except, 0, None);
  }
}
