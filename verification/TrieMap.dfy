/** What the writes of ebla/trie/writer.go promise about the resolved trie: every write keeps
    the canonical shape and updates one key of a finite map, and the shape is determined by
    that map, so the order of writes does not matter. */
module TrieMap {
  import opened Wrappers
  import opened Rlp
  import opened Trie

  // ---------------------------------------------------------------------------------
  // Put keeps the shape and sets one key
  // ---------------------------------------------------------------------------------

  lemma BranchCanonical(cs: seq<Trie>, length: nat, i: nat, j: nat)
    requires |cs| == ARITY && length >= 2
    requires forall x :: 0 <= x < ARITY ==> Canonical(cs[x], length - 1)
    requires i < ARITY && j < ARITY && i != j && cs[i] != Nil && cs[j] != Nil
    ensures Canonical(Branch(cs), length)
  {
    assert TwoPresent(cs) by {
      var x, y := if i < j then i else j, if i < j then j else i;
      assert 0 <= x < y < |cs| && cs[x] != Nil && cs[y] != Nil;
    }
  }

  lemma ShiftDownCanonical(t: Trie, m: nat, length: nat)
    requires t.Leaf? || t.Ext?
    requires Canonical(t, length) && m < |t.key| && m + 1 < length
    ensures Canonical(ShiftDown(t, t.key[m + 1..]), length - m - 1)
    ensures ShiftDown(t, t.key[m + 1..]) != Nil
  {
    if t.Leaf? { KeySuffix(t.key, m + 1); }
  }

  lemma SplitCanonical(t: Trie, p: Path, v: Bytes, m: nat)
    requires t.Leaf? || t.Ext?
    requires IsKey(p, |p|) && Canonical(t, |p|) && v != []
    requires CommonPrefix(p, t.key) == m < |t.key|
    requires t.key != p
    ensures m < |p| - 1 && p[m] < 16 && t.key[m] < 16
    ensures Canonical(Split(t, p, v, m), |p|) && Split(t, p, v, m) != Nil
  {
    PartWithNibbles(p, t.key);
    KeySuffix(p, m + 1);
    ShiftDownCanonical(t, m, |p|);
    var cs := NoChildren()[t.key[m] := ShiftDown(t, t.key[m + 1..])][p[m] := Leaf(p[m + 1..], v)];
    BranchCanonical(cs, |p| - m, t.key[m], p[m]);
    assert forall x :: 0 <= x < m ==> p[..m][x] == p[..|p| - 1][x];
  }

  /** Replacing one child of a branch by a present trie. */
  lemma ReplaceChild(children: seq<Trie>, n: nat, c: Trie, length: nat)
    requires Canonical(Branch(children), length) && n < ARITY
    requires Canonical(c, length - 1) && c != Nil
    ensures Canonical(Branch(children[n := c]), length)
  {
    var i, j :| 0 <= i < j < |children| && children[i] != Nil && children[j] != Nil;
    BranchCanonical(children[n := c], length, i, j);
  }

  lemma {:induction false} InsertCanonical(t: Trie, p: Path, v: Bytes)
    requires IsKey(p, |p|) && Canonical(t, |p|) && v != []
    ensures Canonical(Insert(t, p, v), |p|)
    ensures Insert(t, p, v) != Nil
    ensures t.Branch? ==> Insert(t, p, v).Branch?
    decreases t
  {
    match t
    case Nil =>
    case Leaf(key, w) =>
      LeafCommonPrefix(p, key);
      if p != key { SplitCanonical(t, p, v, CommonPrefix(p, key)); }
    case Ext(key, child) =>
      var m := CommonPrefix(p, key);
      if m == |key| {
        KeySuffix(p, m);
        InsertCanonical(child, p[m..], v);
      } else {
        SplitCanonical(t, p, v, m);
      }
    case Branch(children) =>
      KeyHead(p);
      InsertCanonical(children[p[0]], p[1..], v);
      var c := Insert(children[p[0]], p[1..], v);
      ReplaceChild(children, p[0], c, |p|);
      assert Insert(t, p, v) == Branch(children[p[0] := c]);
  }

  /** Below a split the old short node still answers for its own keys. */
  lemma GetShiftDown(t: Trie, m: nat, q: Path)
    requires t.Leaf? || t.Ext?
    requires m < |t.key| && m < |q| && t.key[..m + 1] == q[..m + 1]
    ensures Get(ShiftDown(t, t.key[m + 1..]), q[m + 1..]) == Get(t, q)
  {
    var k := t.key;
    assert k == k[..m + 1] + k[m + 1..] && q == q[..m + 1] + q[m + 1..];
    if t.Ext? {
      assert k <= q <==> k[m + 1..] <= q[m + 1..];
      if k <= q {
        assert q[m + 1..][|k| - m - 1..] == q[|k|..];
      }
    }
  }

  /** What a branch with two filled children reads. */
  lemma GetJunction(i: Byte, x: Trie, j: Byte, y: Trie, q: Path)
    requires i < 16 && j < 16 && i != j && q != []
    ensures Get(Branch(NoChildren()[i := x][j := y]), q) ==
            if q[0] == j then Get(y, q[1..]) else if q[0] == i then Get(x, q[1..]) else None
  {
  }

  /** What a split reads: below the junction, the two parts by their first symbol. */
  lemma GetSplit(t: Trie, p: Path, v: Bytes, m: nat, q: Path)
    requires t.Leaf? || t.Ext?
    requires m < |t.key| && m < |p| == |q| && p[m] < 16 && t.key[m] < 16 && p[m] != t.key[m]
    requires p[..m] == t.key[..m]
    ensures Get(Split(t, p, v, m), q) == if q == p then Some(v) else Get(t, q)
  {
    var k := t.key;
    var low := ShiftDown(t, k[m + 1..]);
    assert p == p[..m] + [p[m]] + p[m + 1..];
    assert q == q[..m] + [q[m]] + q[m + 1..];
    if q[..m] == p[..m] {
      assert m == 0 ==> q[m..] == q;
      assert q[m..][0] == q[m] && q[m..][1..] == q[m + 1..];
      GetJunction(k[m], low, p[m], Leaf(p[m + 1..], v), q[m..]);
      if q[m] == k[m] {
        assert k[..m + 1] == k[..m] + [k[m]] && q[..m + 1] == q[..m] + [q[m]];
        GetShiftDown(t, m, q);
      } else {
        assert !(k <= q);
      }
    } else {
      assert q[..m] != k[..m];
      PrefixesNest(k[..m], k, q);
      assert !(k <= q);
    }
  }

  lemma GetInsertExt(t: Trie, p: Path, r: Trie, v: Bytes, q: Path)
    requires t.Ext? && t.key <= p && |q| == |p|
    requires t.key <= q ==>
               Get(r, q[|t.key|..]) == if q[|t.key|..] == p[|t.key|..] then Some(v) else Get(t.child, q[|t.key|..])
    ensures Get(Ext(t.key, r), q) == if q == p then Some(v) else Get(t, q)
  {
    assert p == t.key + p[|t.key|..];
    assert t.key <= q ==> q == t.key + q[|t.key|..];
  }

  lemma GetSplitExt(t: Trie, p: Path, v: Bytes, m: nat, q: Path)
    requires t.Ext? && IsKey(p, |p|) && Canonical(t, |p|) && |q| == |p|
    requires m == CommonPrefix(p, t.key) < |t.key|
    ensures Get(Insert(t, p, v), q) == if q == p then Some(v) else Get(t, q)
  {
    PartWithNibbles(p, t.key);
    GetSplit(t, p, v, m, q);
  }

  /** Put refines map update: the key written reads back, every other path reads as before. */
  lemma {:induction false} GetInsert(t: Trie, p: Path, v: Bytes, q: Path)
    requires IsKey(p, |p|) && Canonical(t, |p|)
    requires |q| == |p|
    ensures Get(Insert(t, p, v), q) == if q == p then Some(v) else Get(t, q)
    decreases t
  {
    match t
    case Nil =>
    case Leaf(key, w) =>
      LeafCommonPrefix(p, key);
      if p != key {
        PartWithNibbles(p, key);
        GetSplit(t, p, v, CommonPrefix(p, key), q);
      }
    case Ext(key, child) =>
      var m := CommonPrefix(p, key);
      PrefixIffCommon(p, key);
      if m == |key| {
        KeySuffix(p, m);
        var r := Insert(child, p[m..], v);
        if key <= q { GetInsert(child, p[m..], v, q[m..]); }
        GetInsertExt(t, p, r, v, q);
      } else {
        GetSplitExt(t, p, v, m, q);
      }
    case Branch(children) =>
      KeyHead(p);
      GetInsert(children[p[0]], p[1..], v, q[1..]);
      assert p == [p[0]] + p[1..] && q == [q[0]] + q[1..];
  }

  // ---------------------------------------------------------------------------------
  // Delete keeps the shape and removes one key
  // ---------------------------------------------------------------------------------

  lemma PrependCanonical(k: Path, t: Trie, length: nat)
    requires k != [] && Nibbles(k) && Canonical(t, length)
    ensures Canonical(Prepend(k, t), |k| + length)
  {
    if t.Leaf? { KeyExtended(k, t.key); }
  }

  lemma GetPrepend(k: Path, t: Trie, q: Path)
    ensures Get(Prepend(k, t), q) == if k <= q then Get(t, q[|k|..]) else None
  {
    match t
    case Nil =>
    case Branch(_) =>
    case Leaf(key, _) =>
      if k <= q { assert q == k + q[|k|..]; }
    case Ext(key, child) =>
      if k <= q {
        assert q == k + q[|k|..];
        assert k + key <= q <==> key <= q[|k|..];
        if key <= q[|k|..] { assert q[|k|..][|key|..] == q[|k + key|..]; }
      } else {
        PrefixesNest(k, k + key, q);
      }
  }

  /** A delete misses exactly when the key is absent; otherwise the shape is kept. */
  lemma {:induction false} RemoveCanonical(t: Trie, p: Path)
    requires IsKey(p, |p|) && Canonical(t, |p|)
    ensures Remove(t, p).None? <==> Get(t, p).None?
    ensures Remove(t, p).Some? ==> Canonical(Remove(t, p).value, |p|)
    ensures Remove(t, p).Some? && t.Branch? ==> Remove(t, p).value != Nil
    decreases t
  {
    hide Prepend, OnlyChild, TwoPresent;
    match t
    case Nil =>
    case Leaf(key, _) => PrefixIffCommon(p, key);
    case Ext(key, child) =>
      PrefixIffCommon(p, key);
      if key <= p {
        KeySuffix(p, |key|);
        RemoveCanonical(child, p[|key|..]);
        RemoveExt(t, p);
        var below := Remove(child, p[|key|..]);
        if below.Some? { PrependCanonical(key, below.value, |p| - |key|); }
      }
    case Branch(children) =>
      KeyHead(p);
      RemoveCanonical(children[p[0]], p[1..]);
      var below := Remove(children[p[0]], p[1..]);
      if below.Some? { RemoveBranchCanonical(t, p, below.value); }
  }

  lemma RemoveExt(t: Trie, p: Path)
    requires IsKey(p, |p|) && Canonical(t, |p|) && t.Ext? && t.key <= p && IsKey(p[|t.key|..], |p| - |t.key|)
    ensures var below := Remove(t.child, p[|t.key|..]);
            Remove(t, p) == if below.None? then None else Some(Prepend(t.key, below.value))
  {
    PrefixIffCommon(p, t.key);
  }

  /** What is left of a branch after a deletion below its child n. */
  lemma CollapseCanonical(children: seq<Trie>, n: nat, rest: Trie, length: nat)
    requires Canonical(Branch(children), length) && n < ARITY && Canonical(rest, length - 1)
    ensures var only := if rest == Nil then OnlyChild(children, n) else None;
            if only.Some? then
              only.value < ARITY && children[only.value] != Nil &&
              Canonical(Prepend([only.value], children[only.value]), length)
            else Canonical(Branch(children[n := rest]), length)
  {
    hide OnlyChild, OnlyChildFrom;
    OnlyChildIsChild(children, n);
    var only := if rest == Nil then OnlyChild(children, n) else None;
    var i, j :| 0 <= i < j < |children| && children[i] != Nil && children[j] != Nil;
    var cs := children[n := rest];
    if only.Some? {
      PrependCanonical([only.value], children[only.value], length - 1);
    } else if rest == Nil {
      assert (i != n && children[i] != Nil) || (j != n && children[j] != Nil);
      var a, b :| 0 <= a < b < |cs| && cs[a] != Nil && cs[b] != Nil;
      BranchCanonical(cs, length, a, b);
    } else {
      BranchCanonical(cs, length, i, j);
    }
  }

  lemma RemoveBranchCanonical(t: Trie, p: Path, rest: Trie)
    requires IsKey(p, |p|) && Canonical(t, |p|) && t.Branch? && p[0] < 16
    requires Canonical(rest, |p| - 1) && IsKey(p[1..], |p| - 1)
    requires Remove(t.children[p[0]], p[1..]) == Some(rest)
    ensures Remove(t, p).Some? && Canonical(Remove(t, p).value, |p|) && Remove(t, p).value != Nil
  {
    CollapseCanonical(t.children, p[0], rest, |p|);
  }

  /** Delete refines map removal. */
  lemma {:induction false} GetRemove(t: Trie, p: Path, q: Path)
    requires IsKey(p, |p|) && Canonical(t, |p|) && |q| == |p|
    requires Remove(t, p).Some?
    ensures Get(Remove(t, p).value, q) == if q == p then None else Get(t, q)
    decreases t
  {
    match t
    case Nil =>
    case Leaf(key, _) => PrefixIffCommon(p, key);
    case Ext(key, child) =>
      PrefixIffCommon(p, key);
      KeySuffix(p, |key|);
      RemoveExt(t, p);
      var r := Remove(child, p[|key|..]).value;
      if key <= q { GetRemove(child, p[|key|..], q[|key|..]); }
      GetRemoveExt(t, p, r, q);
    case Branch(children) =>
      KeyHead(p);
      GetRemove(children[p[0]], p[1..], q[1..]);
      GetRemoveBranch(t, p, q);
      assert p == [p[0]] + p[1..] && q == [q[0]] + q[1..];
  }

  lemma GetRemoveExt(t: Trie, p: Path, r: Trie, q: Path)
    requires t.Ext? && t.key <= p && |q| == |p|
    requires t.key <= q ==> Get(r, q[|t.key|..]) == if q[|t.key|..] == p[|t.key|..] then None else Get(t.child, q[|t.key|..])
    ensures Get(Prepend(t.key, r), q) == if q == p then None else Get(t, q)
  {
    GetPrepend(t.key, r, q);
    assert p == t.key + p[|t.key|..];
    assert t.key <= q ==> q == t.key + q[|t.key|..];
  }

  lemma GetRemoveBranch(t: Trie, p: Path, q: Path)
    requires IsKey(p, |p|) && Canonical(t, |p|) && t.Branch? && |q| == |p| && p[0] < ARITY
    requires IsKey(p[1..], |p| - 1) && Remove(t.children[p[0]], p[1..]).Some?
    ensures Remove(t, p).Some?
    ensures Get(Remove(t, p).value, q) ==
            if q[0] == p[0] then Get(Remove(t.children[p[0]], p[1..]).value, q[1..]) else Get(t, q)
  {
    var children := t.children;
    var rest := Remove(children[p[0]], p[1..]).value;
    OnlyChildIsChild(children, p[0]);
    var only := if rest == Nil then OnlyChild(children, p[0]) else None;
    if only.Some? {
      GetPrepend([only.value], children[only.value], q);
      assert [only.value] <= q <==> q[0] == only.value;
    }
  }

  // ---------------------------------------------------------------------------------
  // One shape per map
  // ---------------------------------------------------------------------------------

  /** Every present trie holds a key. */
  lemma {:induction false} SomeKey(t: Trie, length: nat) returns (q: Path)
    requires Canonical(t, length) && t != Nil
    ensures IsKey(q, length) && Get(t, q).Some?
    decreases t
  {
    match t
    case Leaf(key, _) => q := key;
    case Ext(key, child) =>
      var r := SomeKey(child, length - |key|);
      q := key + r;
      KeyExtended(key, r);
      assert q[|key|..] == r;
    case Branch(children) =>
      var i, j :| 0 <= i < j < |children| && children[i] != Nil && children[j] != Nil;
      q := SomeKeyUnder(t, length, i);
  }

  /** A present child of a branch holds a key starting with its nibble. */
  lemma {:induction false} SomeKeyUnder(t: Trie, length: nat, i: nat) returns (q: Path)
    requires Canonical(t, length) && t.Branch? && i < ARITY && t.children[i] != Nil
    ensures IsKey(q, length) && Get(t, q).Some? && q[0] == i
    decreases t, 0
  {
    var r := SomeKey(t.children[i], length - 1);
    q := [i] + r;
    KeyExtended([i], r);
    assert q[1..] == r;
  }

  ghost predicate SameContents(t: Trie, u: Trie, length: nat)
  {
    forall q: Path | IsKey(q, length) :: Get(t, q) == Get(u, q)
  }

  /** Below a common prefix the contents agree as well. */
  lemma SameContentsBelow(t: Trie, u: Trie, k: Path, t': Trie, u': Trie, length: nat)
    requires |k| < length && Nibbles(k) && SameContents(t, u, length)
    requires forall q: Path | IsKey(q, length - |k|) :: Get(t, k + q) == Get(t', q) && Get(u, k + q) == Get(u', q)
    ensures SameContents(t', u', length - |k|)
  {
    forall q: Path | IsKey(q, length - |k|) ensures Get(t', q) == Get(u', q) {
      KeyExtended(k, q);
    }
  }

  /** A leaf holds one key, a branch two: they never have the same contents. */
  lemma BranchHoldsTwo(t: Trie, length: nat) returns (q: Path, r: Path)
    requires Canonical(t, length) && t.Branch?
    ensures IsKey(q, length) && IsKey(r, length) && q[0] != r[0]
    ensures Get(t, q).Some? && Get(t, r).Some?
  {
    var i, j :| 0 <= i < j < |t.children| && t.children[i] != Nil && t.children[j] != Nil;
    q := SomeKeyUnder(t, length, i);
    r := SomeKeyUnder(t, length, j);
  }

  lemma ExtHoldsTwo(t: Trie, length: nat) returns (q: Path, r: Path)
    requires Canonical(t, length) && t.Ext?
    ensures IsKey(q, length) && IsKey(r, length) && q[|t.key|] != r[|t.key|]
    ensures t.key <= q && t.key <= r
    ensures Get(t, q).Some? && Get(t, r).Some?
  {
    var a, b := BranchHoldsTwo(t.child, length - |t.key|);
    q, r := t.key + a, t.key + b;
    KeyExtended(t.key, a);
    KeyExtended(t.key, b);
    assert q[|t.key|..] == a && r[|t.key|..] == b;
  }

  /** A trie without keys is Nil. */
  lemma NilIsAlone(t: Trie, length: nat)
    requires Canonical(t, length) && t != Nil
    ensures !SameContents(t, Nil, length) && !SameContents(Nil, t, length)
  {
    var q := SomeKey(t, length);
    assert Get(t, q) != Get(Nil, q);
  }

  /** Two extensions with different key parts differ in contents. */
  lemma ExtKeysDiffer(t: Trie, u: Trie, length: nat)
    requires Canonical(t, length) && Canonical(u, length) && t.Ext? && u.Ext?
    requires |t.key| <= |u.key| && t.key != u.key
    ensures !SameContents(t, u, length) && !SameContents(u, t, length)
  {
    var q, r := ExtHoldsTwo(t, length);
    PrefixesNest(t.key, u.key, q);
    PrefixesNest(t.key, u.key, r);
    assert |t.key| == |u.key| ==> !(t.key <= u.key);
    assert Get(t, q) != Get(u, q) || Get(t, r) != Get(u, r);
  }

  lemma LeafIsNotBranching(l: Trie, o: Trie, length: nat)
    requires Canonical(l, length) && Canonical(o, length) && l.Leaf? && (o.Ext? || o.Branch?)
    ensures !SameContents(l, o, length) && !SameContents(o, l, length)
  {
    var q, r;
    if o.Branch? { q, r := BranchHoldsTwo(o, length); } else { q, r := ExtHoldsTwo(o, length); }
    assert Get(l, q) != Get(o, q) || Get(l, r) != Get(o, r);
  }

  lemma ExtIsNotBranch(e: Trie, b: Trie, length: nat)
    requires Canonical(e, length) && Canonical(b, length) && e.Ext? && b.Branch?
    ensures !SameContents(e, b, length) && !SameContents(b, e, length)
  {
    var q, r := BranchHoldsTwo(b, length);
    assert e.key <= q ==> e.key[0] == q[0];
    assert e.key <= r ==> e.key[0] == r[0];
    assert Get(e, q) != Get(b, q) || Get(e, r) != Get(b, r);
  }

  lemma SameLeaves(t: Trie, u: Trie, length: nat)
    requires Canonical(t, length) && Canonical(u, length) && t.Leaf? && u.Leaf?
    requires SameContents(t, u, length)
    ensures t == u
  {
    assert Get(t, t.key) == Get(u, t.key);
  }

  /** The contents fix the outermost node. */
  lemma SameNode(t: Trie, u: Trie, length: nat)
    requires Canonical(t, length) && Canonical(u, length) && SameContents(t, u, length)
    ensures t.Nil? <==> u.Nil?
    ensures t.Leaf? <==> u.Leaf?
    ensures t.Leaf? ==> t == u
    ensures t.Ext? <==> u.Ext?
    ensures t.Ext? && u.Ext? ==> t.key == u.key
  {
    if t != Nil { NilIsAlone(t, length); }
    if u != Nil { NilIsAlone(u, length); }
    if t.Leaf? && (u.Ext? || u.Branch?) { LeafIsNotBranching(t, u, length); }
    if u.Leaf? && (t.Ext? || t.Branch?) { LeafIsNotBranching(u, t, length); }
    if t.Leaf? && u.Leaf? { SameLeaves(t, u, length); }
    if t.Ext? && u.Branch? { ExtIsNotBranch(t, u, length); }
    if u.Ext? && t.Branch? { ExtIsNotBranch(u, t, length); }
    if t.Ext? && u.Ext? && t.key != u.key {
      if |t.key| <= |u.key| { ExtKeysDiffer(t, u, length); } else { ExtKeysDiffer(u, t, length); }
    }
  }

  lemma SameChild(t: Trie, u: Trie, length: nat, i: nat)
    requires Canonical(t, length) && Canonical(u, length) && t.Branch? && u.Branch? && i < ARITY
    requires SameContents(t, u, length)
    ensures SameContents(t.children[i], u.children[i], length - 1)
  {
    forall q: Path | IsKey(q, length - 1)
      ensures Get(t, [i] + q) == Get(t.children[i], q) && Get(u, [i] + q) == Get(u.children[i], q) {
      assert ([i] + q)[1..] == q;
    }
    SameContentsBelow(t, u, [i], t.children[i], u.children[i], length);
  }

  lemma SameExtChild(t: Trie, u: Trie, length: nat)
    requires Canonical(t, length) && Canonical(u, length) && t.Ext? && u.Ext? && t.key == u.key
    requires SameContents(t, u, length)
    ensures SameContents(t.child, u.child, length - |t.key|)
  {
    forall q: Path | IsKey(q, length - |t.key|)
      ensures Get(t, t.key + q) == Get(t.child, q) && Get(u, t.key + q) == Get(u.child, q) {
      assert (t.key + q)[|t.key|..] == q;
    }
    SameContentsBelow(t, u, t.key, t.child, u.child, length);
  }

  /** Canonical tries with the same contents are the same trie. */
  lemma {:induction false} UniqueShape(t: Trie, u: Trie, length: nat)
    requires Canonical(t, length) && Canonical(u, length)
    requires SameContents(t, u, length)
    ensures t == u
    decreases t
  {
    SameNode(t, u, length);
    if t.Branch? {
      forall i | 0 <= i < ARITY ensures t.children[i] == u.children[i] {
        SameChild(t, u, length, i);
        UniqueShape(t.children[i], u.children[i], length - 1);
      }
      assert t.children == u.children;
    } else if t.Ext? {
      SameExtChild(t, u, length);
      UniqueShape(t.child, u.child, length - |t.key|);
    }
  }

  // ---------------------------------------------------------------------------------
  // Histories
  // ---------------------------------------------------------------------------------

  datatype Write = Put(key: Path, val: Bytes) | Delete(key: Path)

  predicate ValidWrite(w: Write)
  {
    IsKey(w.key, KEY_LENGTH) && (w.Put? ==> w.val != [])
  }

  /** `write`: a delete that misses leaves the trie as it is. */
  function Apply(t: Trie, w: Write): (r: Trie)
    requires Canonical(t, KEY_LENGTH) && ValidWrite(w)
    ensures Canonical(r, KEY_LENGTH)
  {
    match w
    case Put(k, v) => InsertCanonical(t, k, v); Insert(t, k, v)
    case Delete(k) =>
      RemoveCanonical(t, k);
      match Remove(t, k)
      case None => t
      case Some(r) => r
  }

  function ApplyToMap(m: map<Path, Bytes>, w: Write): (r: map<Path, Bytes>)
  {
    match w
    case Put(k, v) => m[k := v]
    case Delete(k) => m - {k}
  }

  function Run(history: seq<Write>): (t: Trie)
    requires forall i :: 0 <= i < |history| ==> ValidWrite(history[i])
    ensures Canonical(t, KEY_LENGTH)
  {
    if history == [] then Nil
    else Apply(Run(history[..|history| - 1]), history[|history| - 1])
  }

  function RunMap(history: seq<Write>): (m: map<Path, Bytes>)
  {
    if history == [] then map[]
    else ApplyToMap(RunMap(history[..|history| - 1]), history[|history| - 1])
  }

  /** The trie holds exactly the bindings of the map. */
  ghost predicate Represents(t: Trie, m: map<Path, Bytes>)
  {
    forall q: Path | IsKey(q, KEY_LENGTH) :: Get(t, q) == if q in m then Some(m[q]) else None
  }

  /** One write refines one map operation. */
  lemma ApplyRefinesMap(t: Trie, m: map<Path, Bytes>, w: Write)
    requires Canonical(t, KEY_LENGTH) && ValidWrite(w) && Represents(t, m)
    ensures Represents(Apply(t, w), ApplyToMap(m, w))
  {
    forall q: Path | IsKey(q, KEY_LENGTH)
      ensures Get(Apply(t, w), q) == var n := ApplyToMap(m, w); if q in n then Some(n[q]) else None
    {
      match w
      case Put(k, v) => GetInsert(t, k, v, q);
      case Delete(k) =>
        RemoveCanonical(t, k);
        if Remove(t, k).Some? { GetRemove(t, k, q); }
    }
  }

  lemma {:induction false} RunRefinesMap(history: seq<Write>)
    requires forall i :: 0 <= i < |history| ==> ValidWrite(history[i])
    ensures Represents(Run(history), RunMap(history))
    decreases |history|
  {
    if history != [] {
      var front := history[..|history| - 1];
      RunRefinesMap(front);
      ApplyRefinesMap(Run(front), RunMap(front), history[|history| - 1]);
    }
  }

  /** Any two histories that leave the same map build the same trie. */
  lemma HistoryIndependence(a: seq<Write>, b: seq<Write>)
    requires forall i :: 0 <= i < |a| ==> ValidWrite(a[i])
    requires forall i :: 0 <= i < |b| ==> ValidWrite(b[i])
    requires RunMap(a) == RunMap(b)
    ensures Run(a) == Run(b)
  {
    RunRefinesMap(a);
    RunRefinesMap(b);
    UniqueShape(Run(a), Run(b), KEY_LENGTH);
  }
}
