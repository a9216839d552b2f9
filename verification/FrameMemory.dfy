/** The pooled memory of nested call frames (core/vm/memory.go): frames take the next bytes of
    one shared buffer, move to a slice of their own when it is full, and give the bytes back
    zeroed, last in first out. */
module FrameMemory {
  import opened Wrappers
  import opened Rlp

  const WORD_SIZE: nat := 32

  function Zeros(n: nat): (z: Bytes)
    ensures |z| == n && forall i :: 0 <= i < n ==> z[i] == 0
  {
    seq(n, _ => 0)
  }

  // ---------------------------------------------------------------------------------
  // Plain memory: the specification
  // ---------------------------------------------------------------------------------

  /** Memory of at least `size` bytes, new bytes zero. */
  function Grown(c: Bytes, size: nat): (r: Bytes)
  {
    if size <= |c| then c else c + Zeros(size - |c|)
  }

  /** The bytes v written from `at` on. */
  function Overwritten(c: Bytes, at: nat, v: Bytes): (r: Bytes)
    requires at + |v| <= |c|
    ensures |r| == |c|
  {
    c[..at] + v + c[at + |v|..]
  }

  /** Byte by byte: what was written, and the rest as it was. */
  lemma OverwrittenAt(c: Bytes, at: nat, v: Bytes, k: nat)
    requires at + |v| <= |c| && k < |c|
    ensures Overwritten(c, at, v)[k] == if at <= k < at + |v| then v[k - at] else c[k]
  {
  }

  /** What was written is read back. */
  lemma OverwrittenReads(c: Bytes, at: nat, v: Bytes)
    requires at + |v| <= |c|
    ensures Overwritten(c, at, v)[at..at + |v|] == v
  {
    var r := Overwritten(c, at, v);
    forall k | 0 <= k < |v| ensures r[at..at + |v|][k] == v[k] { OverwrittenAt(c, at, v, at + k); }
  }

  /** Growing keeps the content and adds zeros behind it. */
  lemma GrownAt(c: Bytes, size: nat, k: nat)
    ensures |Grown(c, size)| == if size > |c| then size else |c|
    ensures k < |Grown(c, size)| ==> Grown(c, size)[k] == if k < |c| then c[k] else 0
  {
  }

  function Min(a: nat, b: nat): (m: nat)
  {
    if a < b then a else b
  }

  // ---------------------------------------------------------------------------------
  // The pool and a frame
  // ---------------------------------------------------------------------------------

  class MemoryPool {
    const buf: array<Byte>
    var reserved: nat

    /** `Init`. */
    constructor (capacity: nat)
      ensures Clean() && reserved == 0 && fresh(buf) && buf.Length == capacity
    {
      buf := new Byte[capacity](_ => 0);
      reserved := 0;
    }

    /** The buffer is zero beyond what is reserved. */
    ghost predicate Clean()
      reads this, buf
    {
      reserved <= buf.Length && forall k :: reserved <= k < buf.Length ==> buf[k] == 0
    }
  }

  /** `Memory` of the innermost frame.  `store` is the slice of the pool's buffer from
      `poolOffset` on while `usingPool`, and a slice of its own afterwards. */
  class Memory {
    const pool: MemoryPool
    const poolOffset: nat
    var usingPool: bool
    var length: nat
    var heap: Bytes

    ghost predicate Valid()
      reads this, pool, pool.buf
    {
      pool.Clean() &&
      (if usingPool then pool.reserved == poolOffset + length else pool.reserved == poolOffset && |heap| == length)
    }

    /** The bytes of the frame's memory. */
    ghost function Content(): (c: Bytes)
      requires Valid()
      reads this, pool, pool.buf
    {
      if usingPool then pool.buf[poolOffset..poolOffset + length] else heap
    }

    /** What the frames around this one have in the buffer. */
    ghost function Below(): (b: Bytes)
      requires poolOffset <= pool.buf.Length
      reads this, pool, pool.buf
    {
      pool.buf[..poolOffset]
    }

    /** `Init`. */
    constructor (p: MemoryPool)
      requires p.Clean()
      ensures pool == p && poolOffset == p.reserved && Valid() && Content() == []
    {
      pool, poolOffset, usingPool, length, heap := p, p.reserved, true, 0, [];
    }

    /** `release`, to a zeroed slice of the given length or to none. */
    method ReleaseTo(moveTo: Bytes)
      requires Valid() && forall i :: 0 <= i < |moveTo| ==> moveTo[i] == 0
      modifies this, pool, pool.buf
      ensures Valid() && !usingPool && pool.reserved == poolOffset && Below() == old(Below())
      ensures Content() == Overwritten(moveTo, 0, old(Content())[..Min(|moveTo|, |old(Content())|)])
    {
      ghost var c := Content();
      var n := Min(|moveTo|, length);
      var store := if usingPool then pool.buf[poolOffset..poolOffset + length] else heap;
      heap := store[..n] + moveTo[n..];
      if usingPool {
        usingPool := false;
        ZeroFill(pool.buf, poolOffset, length);
        pool.reserved := poolOffset;
      }
      length := |moveTo|;
    }

    /** `Release`, at the end of the frame. */
    method Release()
      requires Valid()
      modifies this, pool, pool.buf
      ensures pool.Clean() && pool.reserved == poolOffset && Below() == old(Below())
    {
      ReleaseTo([]);
    }

    /** `Resize`. */
    method Resize(size: nat)
      requires Valid()
      modifies this, pool, pool.buf
      ensures Valid() && Below() == old(Below()) && Content() == Grown(old(Content()), size)
    {
      if size <= length { return; }
      if usingPool {
        if poolOffset + size <= pool.buf.Length {
          pool.reserved := poolOffset + size;
          length := size;
          return;
        }
      }
      ReleaseTo(Zeros(size));
    }

    /** `copy(store[at:], v)` for bytes that fit. */
    method Write(at: nat, v: Bytes)
      requires Valid() && at + |v| <= length
      modifies this, pool.buf
      ensures Valid() && Below() == old(Below()) && length == old(length)
      ensures Content() == Overwritten(old(Content()), at, v)
    {
      if usingPool {
        PutBytes(pool.buf, poolOffset + at, v);
      } else {
        heap := heap[..at] + v + heap[at + |v|..];
      }
    }

    /** `Set`: false is the panic of a frame that was not resized before. */
    method Set(offset: nat, size: nat, value: Bytes) returns (ok: bool)
      requires Valid()
      modifies this, pool.buf
      ensures Valid() && Below() == old(Below())
      ensures ok <==> size == 0 || offset + size <= |old(Content())|
      ensures Content() == if ok && size > 0 then Overwritten(old(Content()), offset, value[..Min(size, |value|)]) else old(Content())
    {
      if size > 0 {
        if offset + size > length { return false; }
        Write(offset, value[..Min(size, |value|)]);
      }
      ok := true;
    }

    /** `Set32` with the 32 bytes of the word. */
    method SetWord(offset: nat, word: Bytes) returns (ok: bool)
      requires Valid() && |word| == WORD_SIZE
      modifies this, pool.buf
      ensures Valid() && Below() == old(Below())
      ensures ok <==> offset + WORD_SIZE <= |old(Content())|
      ensures Content() == if ok then Overwritten(old(Content()), offset, word) else old(Content())
    {
      if offset + WORD_SIZE > length { return false; }
      Write(offset, word);
      ok := true;
    }

    /** `Copy`, whose ranges may overlap.  The run loop has resized for both: a Go slice could
        reach beyond its length. */
    method Copy(dst: nat, src: nat, len: nat)
      requires Valid() && (len > 0 ==> dst + len <= length && src + len <= length)
      modifies this, pool.buf
      ensures Valid() && Below() == old(Below())
      ensures Content() == if len > 0 then Overwritten(old(Content()), dst, old(Content())[src..src + len]) else old(Content())
    {
      if len == 0 { return; }
      ghost var c := Content();
      var v := if usingPool then pool.buf[poolOffset + src..poolOffset + src + len] else heap[src..src + len];
      assert v == c[src..src + len];
      Write(dst, v);
    }

    /** `GetCopy`, for which the run loop has resized as well. */
    method GetCopy(offset: nat, size: nat) returns (cpy: Bytes)
      requires Valid() && (offset < length && size > 0 ==> offset + size <= length)
      ensures cpy == if size > 0 && offset < |Content()| then Content()[offset..offset + size] else []
    {
      cpy := [];
      if size != 0 && length > offset {
        cpy := if usingPool then pool.buf[poolOffset + offset..poolOffset + offset + size] else heap[offset..offset + size];
      }
    }
  }

  /** A word that is stored at an offset inside the memory is loaded from there. */
  method StoreAndLoadWord(mem: Memory, offset: nat, word: Bytes) returns (r: Bytes)
    requires mem.Valid() && |word| == WORD_SIZE && offset + WORD_SIZE <= mem.length
    modifies mem, mem.pool.buf
    ensures r == word && mem.Valid() && mem.Below() == old(mem.Below())
  {
    hide Overwritten;
    OverwrittenReads(mem.Content(), offset, word);
    var ok := mem.SetWord(offset, word);
    r := mem.GetCopy(offset, WORD_SIZE);
  }

  /** Likewise for any number of bytes. */
  method StoreAndLoad(mem: Memory, offset: nat, value: Bytes) returns (r: Bytes)
    requires mem.Valid() && offset + |value| <= mem.length
    modifies mem, mem.pool.buf
    ensures r == value && mem.Valid() && mem.Below() == old(mem.Below())
  {
    hide Overwritten;
    OverwrittenReads(mem.Content(), offset, value);
    var ok := mem.Set(offset, |value|, value);
    assert value[..Min(|value|, |value|)] == value;
    r := mem.GetCopy(offset, |value|);
  }

  /** `ZFill_1`. */
  method ZeroFill(buf: array<Byte>, start: nat, n: nat)
    requires start + n <= buf.Length
    modifies buf
    ensures forall k :: 0 <= k < buf.Length ==> buf[k] == if start <= k < start + n then 0 else old(buf[k])
  {
    for i := 0 to n
      invariant forall k :: 0 <= k < buf.Length ==> buf[k] == if start <= k < start + i then 0 else old(buf[k])
    {
      buf[start + i] := 0;
    }
  }

  method PutBytes(buf: array<Byte>, at: nat, v: Bytes)
    requires at + |v| <= buf.Length
    modifies buf
    ensures forall k :: 0 <= k < buf.Length ==> buf[k] == if at <= k < at + |v| then v[k - at] else old(buf[k])
  {
    for i := 0 to |v|
      invariant forall k :: 0 <= k < buf.Length ==> buf[k] == if at <= k < at + i then v[k - at] else old(buf[k])
    {
      buf[at + i] := v[i];
    }
  }

  // ---------------------------------------------------------------------------------
  // Nested frames
  // ---------------------------------------------------------------------------------

  /** What a frame does with memory; `Call` runs an inner frame. */
  datatype Instr =
    | Grow(size: nat)
    | Store(offset: nat, size: nat, value: Bytes)
    | StoreWord(offset: nat, word: Bytes)
    | Move(dst: nat, src: nat, len: nat)   // MCOPY, which resizes first
    | Call(body: seq<Instr>)

  /** One instruction on plain memory; None is a panic. */
  function Plain(c: Bytes, x: Instr): (r: Option<Bytes>)
    decreases x, 0
  {
    match x
    case Grow(size) => Some(Grown(c, size))
    case Store(offset, size, value) =>
      if size == 0 then Some(c)
      else if offset + size > |c| then None
      else Some(Overwritten(c, offset, value[..Min(size, |value|)]))
    case StoreWord(offset, word) =>
      if |word| != WORD_SIZE || offset + WORD_SIZE > |c| then None else Some(Overwritten(c, offset, word))
    case Move(dst, src, len) =>
      if len == 0 then Some(c)
      else
        var d := Grown(c, if dst < src then src + len else dst + len);
        Some(Overwritten(d, dst, d[src..src + len]))
    case Call(body) => if PlainFrame([], body).Some? then Some(c) else None
  }

  /** What is found in plain memory after an instruction: the word or bytes where they were stored,
      a moved range as it was before, and everything else as it was. */
  lemma PlainReads(c: Bytes, x: Instr)
    requires Plain(c, x).Some?
    ensures var d := Plain(c, x).value;
            match x
            case Grow(_) => c <= d
            case Store(at, size, v) => (size == |v| ==> size == 0 || d[at..at + size] == v) && (|v| == 0 ==> d == c)
            case StoreWord(at, v) => |d| == |c| && d[at..at + |v|] == v && d[..at] == c[..at] && d[at + |v|..] == c[at + |v|..]
            case Move(dst, src, len) =>
              if len == 0 then d == c
              else |c| <= |d| && dst + len <= |d| && src + len <= |d| && d[dst..dst + len] == Grown(c, |d|)[src..src + len]
            case Call(_) => d == c
  {
    match x
    case Store(at, size, v) => if size == |v| && size > 0 { OverwrittenReads(c, at, v); }
    case StoreWord(at, v) => OverwrittenReads(c, at, v);
    case Move(dst, src, len) =>
      if len > 0 {
        var d := Grown(c, if dst < src then src + len else dst + len);
        OverwrittenReads(d, dst, d[src..src + len]);
      }
    case _ =>
  }

  /** A frame on plain memory of its own. */
  function PlainFrame(c: Bytes, body: seq<Instr>): (r: Option<Bytes>)
    decreases body, 1
  {
    if body == [] then Some(c)
    else
      match Plain(c, body[0])
      case None => None
      case Some(d) => PlainFrame(d, body[1..])
  }

  /** The parts of the buffer that live frames hold: one behind the other, all below `end`. */
  ghost predicate Stacked(regions: seq<(nat, nat)>, end: nat)
  {
    (forall i :: 0 <= i < |regions| ==> regions[i].0 <= regions[i].1 <= end) &&
    (forall i, j :: 0 <= i < j < |regions| ==> regions[i].1 <= regions[j].0)
  }

  /** A frame as `run` has it: memory is initialised, used, and released whatever happens.  With
      any nesting inside, its memory behaves as plain zero-extended memory of its own, and the
      frames around it, whose parts are `regions`, find the buffer as it was and clean above. */
  method RunFrame(pool: MemoryPool, body: seq<Instr>, ghost regions: seq<(nat, nat)>) returns (final: Option<Bytes>)
    requires pool.Clean() && Stacked(regions, pool.reserved)
    modifies pool, pool.buf
    ensures pool.Clean() && pool.reserved == old(pool.reserved)
    ensures pool.buf[..pool.reserved] == old(pool.buf[..pool.reserved])
    ensures final == PlainFrame([], body)
    decreases body, 2
  {
    var mem := new Memory(pool);
    assert mem.Below() == pool.buf[..pool.reserved];
    final := Some([]);
    var i := 0;
    while i < |body| && final.Some?
      invariant i <= |body| && mem.Valid() && mem.pool == pool && mem.poolOffset == old(pool.reserved)
      invariant mem.Below() == old(pool.buf[..pool.reserved])
      invariant final.Some? ==> final.value == mem.Content() && PlainFrame([], body) == PlainFrame(final.value, body[i..])
      invariant final.None? ==> PlainFrame([], body) == None
    {
      var ok := RunInstr(mem, body[i], regions);
      assert body[i..][1..] == body[i + 1..];
      if ok {
        var c := if mem.usingPool then pool.buf[mem.poolOffset..mem.poolOffset + mem.length] else mem.heap;
        final := Some(c);
      } else {
        final := None;
      }
      i := i + 1;
    }
    mem.Release();
  }

  method RunInstr(mem: Memory, x: Instr, ghost regions: seq<(nat, nat)>) returns (ok: bool)
    requires mem.Valid() && Stacked(regions, mem.poolOffset)
    modifies mem, mem.pool, mem.pool.buf
    ensures mem.Valid() && mem.Below() == old(mem.Below())
    ensures ok <==> Plain(old(mem.Content()), x).Some?
    ensures ok ==> mem.Content() == Plain(old(mem.Content()), x).value
    decreases x, 1
  {
    hide Overwritten, Grown;
    match x
    case Grow(size) =>
      mem.Resize(size);
      ok := true;
    case Store(offset, size, value) => ok := mem.Set(offset, size, value);
    case StoreWord(offset, word) =>
      if |word| != WORD_SIZE { return false; }
      ok := mem.SetWord(offset, word);
    case Move(dst, src, len) =>
      RunMove(mem, dst, src, len);
      ok := true;
    case Call(body) => ok := RunInner(mem, body, regions);
  }

  /** MCOPY with the resizing before it. */
  method RunMove(mem: Memory, dst: nat, src: nat, len: nat)
    requires mem.Valid()
    modifies mem, mem.pool.buf, mem.pool
    ensures mem.Valid() && mem.Below() == old(mem.Below())
    ensures Plain(old(mem.Content()), Move(dst, src, len)) == Some(mem.Content())
  {
    hide Overwritten;
    if len > 0 { mem.Resize(if dst < src then src + len else dst + len); }
    mem.Copy(dst, src, len);
  }

  /** A call: the inner frame starts where this one ends. */
  method RunInner(mem: Memory, body: seq<Instr>, ghost regions: seq<(nat, nat)>) returns (ok: bool)
    requires mem.Valid() && Stacked(regions, mem.poolOffset)
    modifies mem.pool, mem.pool.buf
    ensures mem.Valid() && mem.Below() == old(mem.Below()) && mem.Content() == old(mem.Content())
    ensures ok <==> PlainFrame([], body).Some?
    decreases body, 3
  {
    ghost var end := mem.pool.reserved;
    ghost var was := mem.pool.buf[..end];
    var r := RunFrame(mem.pool, body, regions + [(mem.poolOffset, end)]);
    assert mem.pool.buf[..end] == was;
    assert mem.Below() == was[..mem.poolOffset];
    assert mem.usingPool ==> mem.Content() == was[mem.poolOffset..];
    ok := r.Some?;
  }
}
