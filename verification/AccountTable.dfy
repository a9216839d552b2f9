/** The hand-made hash table of ebla/state/state_evm/account_map.go: buckets with three base
    slots and an overflow list, and entries that know where they are. */
module AccountTable {
  import opened Wrappers
  import opened Rlp

  type Address = Bytes

  const BASE_SIZE: nat := 3

  const MAX_UINT32: nat := 0xFFFF_FFFF

  /** `AccountMapEntryHeader`, with the account around it; a deleted entry has no position
      (the largest 32-bit number). */
  class Entry {
    const hashTop: nat
    const addr: Address
    const bucket: nat
    var pos: Option<nat>

    constructor (top: nat, a: Address, b: nat, p: nat)
      ensures hashTop == top && addr == a && bucket == b && pos == Some(p)
    {
      hashTop, addr, bucket, pos := top, a, b, Some(p);
    }
  }

  /** `AccountMapBucket`. */
  datatype Bucket = Bucket(entries: seq<Entry?>, overflow: seq<Entry>)

  const EMPTY_BUCKET := Bucket([null, null, null], [])

  /** Base slots are filled from the front, and overflow is used only when all are. */
  predicate GapFree(b: Bucket)
  {
    |b.entries| == BASE_SIZE &&
    (b.entries[1] != null ==> b.entries[0] != null) && (b.entries[2] != null ==> b.entries[1] != null) &&
    (b.overflow != [] ==> b.entries[2] != null)
  }

  /** How many base slots are filled. */
  function Filled(b: Bucket): (n: nat)
  {
    if |b.entries| != BASE_SIZE || b.entries[0] == null then 0 else if b.entries[1] == null then 1 else if b.entries[2] == null then 2 else 3
  }

  function Size(b: Bucket): (n: nat)
  {
    Filled(b) + |b.overflow|
  }

  /** The entry at position p. */
  function EntryAt(b: Bucket, p: nat): (e: Entry)
    requires GapFree(b) && p < Size(b)
  {
    if p < BASE_SIZE then b.entries[p] as Entry else b.overflow[p - BASE_SIZE]
  }

  /** A new entry in the first free position. */
  function Added(b: Bucket, e: Entry): (r: Bucket)
    requires GapFree(b)
  {
    var pos := Size(b);
    if pos < BASE_SIZE then b.(entries := b.entries[pos := e]) else b.(overflow := b.overflow + [e])
  }

  lemma AddedAt(b: Bucket, e: Entry)
    requires GapFree(b)
    ensures var r := Added(b, e);
            GapFree(r) && Size(r) == Size(b) + 1 && EntryAt(r, Size(b)) == e &&
            forall p :: 0 <= p < Size(b) ==> EntryAt(r, p) == EntryAt(b, p)
  {
  }

  type Positions = map<Address, Option<nat>>

  /** Bucket i holds entries of its own, each at the position it has stored. */
  ghost predicate BucketFits(b: Bucket, i: nat, model: map<Address, Entry>, pos: Positions)
  {
    GapFree(b) && Size(b) < MAX_UINT32 &&
    forall p :: 0 <= p < Size(b) ==>
      var e := EntryAt(b, p);
      e.addr in model && model[e.addr] == e && e.bucket == i && e.addr in pos && pos[e.addr] == Some(p)
  }

  /** The entry of a is where it says. */
  ghost predicate EntryFits(buckets: seq<Bucket>, a: Address, e: Entry, pos: Positions)
  {
    e.addr == a && e.bucket < |buckets| && GapFree(buckets[e.bucket]) && a in pos && pos[a].Some? &&
    pos[a].value < Size(buckets[e.bucket]) && EntryAt(buckets[e.bucket], pos[a].value) == e
  }

  ghost predicate AllFit(buckets: seq<Bucket>, model: map<Address, Entry>, pos: Positions)
  {
    (forall i :: 0 <= i < |buckets| ==> BucketFits(buckets[i], i, model, pos)) &&
    (forall a :: a in model ==> EntryFits(buckets, a, model[a], pos))
  }

  lemma InsertFits(buckets: seq<Bucket>, model: map<Address, Entry>, pos: Positions, e: Entry)
    requires AllFit(buckets, model, pos) && e.addr !in model && e.bucket < |buckets|
    requires GapFree(buckets[e.bucket]) && Size(buckets[e.bucket]) + 1 < MAX_UINT32
    ensures AllFit(buckets[e.bucket := Added(buckets[e.bucket], e)], model[e.addr := e],
                   pos[e.addr := Some(Size(buckets[e.bucket]))])
  {
    hide EntryAt, Size, GapFree, Added;
    AddedAt(buckets[e.bucket], e);
    var buckets', model', pos' := buckets[e.bucket := Added(buckets[e.bucket], e)], model[e.addr := e],
                                  pos[e.addr := Some(Size(buckets[e.bucket]))];
    forall i | 0 <= i < |buckets'| ensures BucketFits(buckets'[i], i, model', pos') {
      assert BucketFits(buckets[i], i, model, pos);
    }
    forall a | a in model' ensures EntryFits(buckets', a, model'[a], pos') {
      if a != e.addr { assert EntryFits(buckets, a, model[a], pos); }
    }
  }

  /** What taking the entry at `pos` out of a bucket leaves: the last entry in its place. */
  ghost predicate SwappedOut(b: Bucket, pos: nat, r: Bucket, moved: Entry?)
    requires GapFree(b) && pos < Size(b)
  {
    GapFree(r) && Size(r) + 1 == Size(b) &&
    (forall q :: 0 <= q < Size(r) && q != pos ==> EntryAt(r, q) == EntryAt(b, q)) &&
    (if pos == Size(r) then moved == null else moved == EntryAt(b, Size(r)) && EntryAt(r, pos) == moved)
  }

  /** The positions after acc, which was at p, is out and `moved` has taken its place. */
  function Relinked(pos: Positions, acc: Entry, p: nat, moved: Entry?): (r: Positions)
  {
    var rest := pos - {acc.addr};
    if moved == null then rest else rest[moved.addr := Some(p)]
  }

  lemma OneLess<K, V>(m: map<K, V>, a: K)
    requires a in m
    ensures |m - {a}| == |m| - 1
  {
    assert (m - {a}).Keys == m.Keys - {a};
  }

  /** The entry that moves was the last of the bucket. */
  lemma MovedWasLast(b: Bucket, i: nat, model: map<Address, Entry>, pos: Positions, acc: Entry, p: nat, r: Bucket, moved: Entry?)
    requires BucketFits(b, i, model, pos) && p < Size(b) && EntryAt(b, p) == acc && SwappedOut(b, p, r, moved)
    ensures moved != null ==>
              moved.addr in model && model[moved.addr] == moved && moved.bucket == i && moved.addr in pos &&
              pos[moved.addr] == Some(Size(r)) && moved.addr != acc.addr
  {
    hide EntryAt, Size, GapFree;
  }

  lemma UnlinkFits(buckets: seq<Bucket>, model: map<Address, Entry>, pos: Positions, acc: Entry, p: nat, r: Bucket, moved: Entry?)
    requires AllFit(buckets, model, pos) && acc.addr in model && model[acc.addr] == acc && pos[acc.addr] == Some(p)
    requires SwappedOut(buckets[acc.bucket], p, r, moved)
    ensures AllFit(buckets[acc.bucket := r], model - {acc.addr}, Relinked(pos, acc, p, moved))
  {
    hide EntryAt, Size, GapFree;
    var i := acc.bucket;
    var buckets', model', pos' := buckets[i := r], model - {acc.addr}, Relinked(pos, acc, p, moved);
    assert EntryFits(buckets, acc.addr, acc, pos) && BucketFits(buckets[i], i, model, pos);
    MovedWasLast(buckets[i], i, model, pos, acc, p, r, moved);
    forall j | 0 <= j < |buckets'| ensures BucketFits(buckets'[j], j, model', pos') {
      assert BucketFits(buckets[j], j, model, pos);
      UnlinkBucket(buckets[j], j, model, pos, acc, p, r, moved);
    }
    forall a | a in model' ensures EntryFits(buckets', a, model'[a], pos') {
      assert EntryFits(buckets, a, model[a], pos);
    }
  }

  lemma UnlinkBucket(b: Bucket, j: nat, model: map<Address, Entry>, pos: Positions, acc: Entry, p: nat, r: Bucket, moved: Entry?)
    requires BucketFits(b, j, model, pos) && acc.addr in pos && pos[acc.addr] == Some(p)
    requires acc.addr in model && model[acc.addr] == acc
    requires moved != null ==> moved.bucket == acc.bucket && moved.addr in model && model[moved.addr] == moved && moved.addr != acc.addr
    requires j == acc.bucket ==> p < Size(b) && EntryAt(b, p) == acc && SwappedOut(b, p, r, moved)
    ensures BucketFits(if j == acc.bucket then r else b, j, model - {acc.addr}, Relinked(pos, acc, p, moved))
  {
    hide EntryAt, Size, GapFree;
    var now := if j == acc.bucket then r else b;
    forall q | 0 <= q < Size(now)
      ensures var e := EntryAt(now, q);
              var pos' := Relinked(pos, acc, p, moved);
              e.addr in model - {acc.addr} && model[e.addr] == e && e.bucket == j && e.addr in pos' && pos'[e.addr] == Some(q)
    {
      assert EntryAt(now, q) == EntryAt(b, if j == acc.bucket && q == p then Size(r) else q);
    }
  }

  /** `AccountMap`. */
  class AccountMap {
    const hash: Address -> nat
    const bucketCount: nat
    const overflowCapacity: nat
    var numEntries: nat
    var buckets: seq<Bucket>
    ghost var model: map<Address, Entry>

    function BucketOf(a: Address): (b: nat)
      requires bucketCount > 0
    {
      hash(a) % bucketCount
    }

    function TopOf(a: Address): (t: nat)
      requires bucketCount > 0
    {
      hash(a) / bucketCount % (MAX_UINT32 + 1)
    }

    /** Where the entries say they are. */
    ghost function Stored(): (pos: Positions)
      reads this, model.Values
    {
      map a | a in model :: model[a].pos
    }

    /** Every entry is filed under its hash, and where it says. */
    ghost predicate Valid()
      reads this, model.Values
    {
      bucketCount > 0 && overflowCapacity > 0 && |buckets| == bucketCount && numEntries == |model| &&
      AllFit(buckets, model, Stored()) &&
      (forall a :: a in model ==> model[a].hashTop == TopOf(a) && model[a].bucket == BucketOf(a))
    }

    /** `Init`; the number of buckets is a power of two there. */
    constructor (h: Address -> nat, buckets: nat, capacity: nat)
      requires buckets > 0 && capacity > 0
      ensures Valid() && model == map[] && numEntries == 0
    {
      hash, bucketCount, overflowCapacity := h, buckets, capacity;
      numEntries := 0;
      this.buckets := seq(buckets, _ => EMPTY_BUCKET);
      model := map[];
    }

    /** The search of `GetOrNew`: the entry, or the first free position. */
    method Find(a: Address) returns (ret: Entry?, pos: nat)
      requires Valid()
      ensures ret != null <==> a in model
      ensures ret != null ==> ret == model[a] && ret.addr == a
      ensures ret == null ==> pos == Size(buckets[BucketOf(a)])
    {
      hide AllFit, EntryFits;
      var bucket := buckets[BucketOf(a)];
      BucketIsFine(BucketOf(a));
      pos := 0;
      if bucket.entries[1] != null {
        var top := TopOf(a);
        var maxSize := BASE_SIZE + |bucket.overflow|;
        while pos < maxSize
          invariant pos <= Size(bucket) && BASE_SIZE + |bucket.overflow| == maxSize
          invariant forall p :: 0 <= p < pos ==> EntryAt(bucket, p).addr != a
          invariant Size(bucket) < maxSize ==> bucket.overflow == [] && Size(bucket) == 2
        {
          var e: Entry?;
          if pos < BASE_SIZE {
            e := bucket.entries[pos];
            if e == null { break; }
          } else {
            e := bucket.overflow[pos - BASE_SIZE];
          }
          assert e == EntryAt(bucket, pos) && e.addr in model;
          if e.hashTop == top && e.addr == a {
            return e, pos;
          }
          pos := pos + 1;
        }
        Missing(a, bucket);
        return null, pos;
      }
      var first := bucket.entries[0];
      if first != null {
        assert first == EntryAt(bucket, 0);
        if first.addr == a { return first, 0; }
        pos := 1;
      }
      Missing(a, bucket);
      return null, pos;
    }

    /** A key whose bucket has no entry for it is not in the map. */
    lemma Missing(a: Address, bucket: Bucket)
      requires Valid() && bucket == buckets[BucketOf(a)] && GapFree(bucket)
      requires forall p :: 0 <= p < Size(bucket) ==> EntryAt(bucket, p).addr != a
      ensures a !in model
    {
      forall c | c in model ensures c != a {
        assert EntryFits(buckets, c, model[c], Stored());
      }
    }

    /** `GetOrNew`. */
    method GetOrNew(a: Address) returns (ret: Entry, wasPresent: bool)
      requires Valid()
      requires Size(buckets[BucketOf(a)]) + 1 < MAX_UINT32
      modifies this
      ensures Valid() && (wasPresent <==> a in old(model))
      ensures ret.addr == a && model == old(model)[a := ret]
      ensures wasPresent ==> ret == old(model)[a] && numEntries == old(numEntries)
      ensures !wasPresent ==> fresh(ret) && numEntries == old(numEntries) + 1
    {
      hide AllFit, EntryFits, BucketFits, Size;
      var found, pos := Find(a);
      if found != null {
        assert model == model[a := found];
        return found, true;
      }
      ret := new Entry(TopOf(a), a, BucketOf(a), pos);
      Insert(ret, pos);
      wasPresent := false;
    }

    /** The new entry in its bucket. */
    method Insert(e: Entry, pos: nat)
      requires Valid() && e.addr !in model
      requires e.bucket == BucketOf(e.addr) && e.hashTop == TopOf(e.addr) && e.pos == Some(pos)
      requires pos == Size(buckets[e.bucket]) && pos + 1 < MAX_UINT32
      modifies this
      ensures Valid() && model == old(model)[e.addr := e] && numEntries == old(numEntries) + 1
    {
      hide EntryAt, Size, GapFree, AllFit, Added;
      ghost var pos0 := Stored();
      BucketIsFine(e.bucket);
      InsertFits(buckets, model, pos0, e);
      buckets := buckets[e.bucket := Added(buckets[e.bucket], e)];
      numEntries := numEntries + 1;
      model := model[e.addr := e];
      assert Stored() == pos0[e.addr := Some(pos)];
    }

    lemma BucketIsFine(i: nat)
      requires Valid() && i < |buckets|
      ensures GapFree(buckets[i]) && BucketFits(buckets[i], i, model, Stored())
    {
      assert BucketFits(buckets[i], i, model, Stored());
    }

    lemma EntryIsFine(acc: Entry)
      requires Valid() && acc.addr in model && model[acc.addr] == acc
      ensures overflowCapacity > 0 && acc.bucket < |buckets| && acc.pos.Some? && GapFree(buckets[acc.bucket]) && acc.pos.value < Size(buckets[acc.bucket])
    {
      assert EntryFits(buckets, acc.addr, acc, Stored());
    }

    /** `Delete`; an entry that was deleted before has no position. */
    method Delete(acc: Entry) returns (wasPresent: bool)
      requires Valid() && (acc.pos.Some? ==> acc.addr in model && model[acc.addr] == acc)
      modifies this, model.Values
      ensures Valid() && acc.pos.None? && (wasPresent <==> old(acc.pos.Some?))
      ensures model == if wasPresent then old(model) - {acc.addr} else old(model)
      ensures numEntries == if wasPresent then old(numEntries) - 1 else old(numEntries)
    {
      hide AccountMap.Valid, SwappedOut, Size, GapFree;
      if acc.pos.None? { return false; }
      EntryIsFine(acc);
      var pos := acc.pos.value;
      var b, moved := RemoveAt(buckets[acc.bucket], pos);
      MovedIsOther(acc, pos, b, moved);
      Unlink(acc, pos, b, moved);
      wasPresent := true;
    }

    /** The two ways of `Delete` to free the last position of the bucket: the end of the overflow
        list, which is reallocated at its desired capacity and dropped when empty, or the last
        filled base slot. */
    method RemoveAt(b: Bucket, pos: nat) returns (r: Bucket, moved: Entry?)
      requires GapFree(b) && pos < Size(b) && overflowCapacity > 0
      ensures SwappedOut(b, pos, r, moved)
    {
      r := b;
      if |b.overflow| > 0 {
        var last := |b.overflow| - 1;
        moved := b.overflow[last];
        if last == overflowCapacity {
          var tmp := seq(overflowCapacity, i requires 0 <= i < overflowCapacity => b.overflow[i]);
          assert tmp == b.overflow[..last];
          r := r.(overflow := tmp);
        } else if last == 0 {
          r := r.(overflow := []);
        } else {
          r := r.(overflow := b.overflow[..last]);
        }
        if pos >= BASE_SIZE && last == pos - BASE_SIZE { return r, null; }
      } else {
        var i := pos + 1;
        moved := null;
        while i < BASE_SIZE && b.entries[i] != null
          invariant pos + 1 <= i <= Size(b) && (i > pos + 1 ==> moved == b.entries[i - 1])
        {
          moved := b.entries[i];
          i := i + 1;
        }
        r := r.(entries := r.entries[i - 1 := null]);
        if i - 1 == pos { return r, null; }
      }
      if pos < BASE_SIZE {
        r := r.(entries := r.entries[pos := moved]);
      } else {
        r := r.(overflow := r.overflow[pos - BASE_SIZE := moved as Entry]);
      }
    }

    /** The new bucket and the new positions. */
    method Unlink(acc: Entry, pos: nat, b: Bucket, moved: Entry?)
      requires Valid() && acc.addr in model && model[acc.addr] == acc && acc.pos == Some(pos) && acc.bucket < |buckets|
      requires GapFree(buckets[acc.bucket]) && pos < Size(buckets[acc.bucket]) && SwappedOut(buckets[acc.bucket], pos, b, moved)
      requires moved != null ==> moved in model.Values
      modifies this, model.Values
      ensures Valid() && acc.pos.None? && model == old(model) - {acc.addr} && numEntries == old(numEntries) - 1
    {
      hide AccountMap.Valid, AllFit, BucketOf, TopOf, Size, GapFree, SwappedOut;
      ghost var was, pos0 := model, Stored();
      ValidGives();
      MovedIsOther(acc, pos, b, moved);
      UnlinkFits(buckets, model, pos0, acc, pos, b, moved);
      OneLess(model, acc.addr);
      buckets := buckets[acc.bucket := b];
      numEntries := numEntries - 1;
      acc.pos := None;
      if moved != null {
        moved.pos := Some(pos);
      }
      model := model - {acc.addr};
      ghost var rel := Relinked(pos0, acc, pos, moved);
      forall a | a in model ensures rel[a] == model[a].pos {
        assert model[a] == was[a] != acc;
        if moved != null && a != moved.addr { assert model[a] != moved; }
      }
      StoredIs(rel);
      IsValid();
    }

    lemma ValidGives()
      requires Valid()
      ensures bucketCount > 0 && overflowCapacity > 0 && |buckets| == bucketCount && numEntries == |model|
      ensures AllFit(buckets, model, Stored())
      ensures forall a :: a in model ==> model[a].hashTop == TopOf(a) && model[a].bucket == BucketOf(a)
    {
    }

    lemma IsValid()
      requires bucketCount > 0 && overflowCapacity > 0 && |buckets| == bucketCount && numEntries == |model|
      requires AllFit(buckets, model, Stored())
      requires forall a :: a in model ==> model[a].hashTop == TopOf(a) && model[a].bucket == BucketOf(a)
      ensures Valid()
    {
    }

    lemma StoredIs(pos: Positions)
      requires pos.Keys == model.Keys && forall a :: a in model ==> pos[a] == model[a].pos
      ensures Stored() == pos
    {
    }

    lemma MovedIsOther(acc: Entry, pos: nat, b: Bucket, moved: Entry?)
      requires Valid() && acc.addr in model && model[acc.addr] == acc && acc.pos == Some(pos) && acc.bucket < |buckets|
      requires GapFree(buckets[acc.bucket]) && pos < Size(buckets[acc.bucket]) && SwappedOut(buckets[acc.bucket], pos, b, moved)
      ensures moved != null ==> moved.addr in model && model[moved.addr] == moved && moved.addr != acc.addr
      ensures moved != null ==> moved in model.Values
      ensures moved != null ==> forall a :: a in model && a != moved.addr ==> model[a] != moved
      ensures forall a :: a in model && a != acc.addr ==> model[a] != acc
    {
      assert EntryFits(buckets, acc.addr, acc, Stored());
      MovedWasLast(buckets[acc.bucket], acc.bucket, model, Stored(), acc, pos, b, moved);
      forall a | a in model ensures model[a].addr == a {
        assert EntryFits(buckets, a, model[a], Stored());
      }
    }
  }
}
