/** The two-buffer encoder of rlp/encode.go.  String data goes to one buffer, list headers to
    another; a list's size is known only when it ends, and nothing is joined before a flush.
    The encoder is shown to produce the recursive encoding for every well-nested use, and to
    be able to rewind to the start of any list. */
module RlpEncoder {
  import opened Wrappers
  import opened Rlp
  import opened RlpRaw

  /** `ListHead`. */
  datatype ListHead = ListHead(strPos: nat, baseLhSize: nat, elemsSize: nat, closed: bool)

  /** The fields of `Encoder`. */
  datatype State = State(str: Bytes, heads: seq<ListHead>, lhSize: nat)

  const EMPTY := State([], [], 0)

  const MAX_UINT32: nat := 0xFFFF_FFFF

  // ---------------------------------------------------------------------------------
  // The operations as functions on states
  // ---------------------------------------------------------------------------------

  function Size(e: State): (n: nat) { |e.str| + e.lhSize }

  function AfterRaw(e: State, b: Bytes): (r: State)
  {
    e.(str := e.str + b)
  }

  function AfterString(e: State, s: Bytes): (r: State)
  {
    AfterRaw(e, EncodeString(s))
  }

  function AfterStart(e: State): (r: State)
  {
    e.(heads := e.heads + [ListHead(|e.str|, e.lhSize, 0, false)])
  }

  /** The list at `pos` was opened inside the data that is there. */
  predicate Opened(e: State, pos: nat)
  {
    pos < |e.heads| && !e.heads[pos].closed && e.heads[pos].strPos + e.heads[pos].baseLhSize <= Size(e)
  }

  function AfterEnd(e: State, pos: nat): (r: State)
    requires Opened(e, pos)
  {
    var size := Size(e) - e.heads[pos].strPos - e.heads[pos].baseLhSize;
    e.(heads := e.heads[pos := e.heads[pos].(elemsSize := size, closed := true)],
       lhSize := e.lhSize + |Header(0xC0, 0xF7, size)|)
  }

  function ListSize(e: State, pos: nat): (n: nat)
    requires pos < |e.heads|
  {
    e.heads[pos].elemsSize + |Header(0xC0, 0xF7, e.heads[pos].elemsSize)|
  }

  function AfterRevert(e: State, pos: nat): (r: State)
    requires pos < |e.heads| && e.heads[pos].strPos <= |e.str|
  {
    State(e.str[..e.heads[pos].strPos], e.heads[..pos], e.heads[pos].baseLhSize)
  }

  /** The heads from `i` on are closed, with 32-bit sizes, and lie in order between `pos` and
      the end. */
  predicate Flushable(e: State, i: nat, pos: nat)
    decreases |e.heads| - i
  {
    pos <= |e.str| &&
    (i < |e.heads| ==>
       e.heads[i].closed && e.heads[i].elemsSize <= MAX_UINT32 &&
       pos <= e.heads[i].strPos <= |e.str| && Flushable(e, i + 1, e.heads[i].strPos))
  }

  /** What `Flush` emits for the heads from `i` on, string data starting at `pos`. */
  function FlushFrom(e: State, i: nat, pos: nat): (r: Bytes)
    requires Flushable(e, i, pos)
    decreases |e.heads| - i
  {
    if i >= |e.heads| then e.str[pos..]
    else
      e.str[pos..e.heads[i].strPos] + Header(0xC0, 0xF7, e.heads[i].elemsSize) +
      FlushFrom(e, i + 1, e.heads[i].strPos)
  }

  // ---------------------------------------------------------------------------------
  // Segments
  // ---------------------------------------------------------------------------------

  /** Between the states `d` and `e` the bytes `w` were appended: what was there is still
      there, every list opened since is closed, and flushing the difference gives `w`. */
  ghost predicate Appended(d: State, e: State, w: Bytes)
  {
    d.str <= e.str && d.heads <= e.heads &&
    Flushable(e, |d.heads|, |d.str|) && FlushFrom(e, |d.heads|, |d.str|) == w &&
    |w| == |e.str| - |d.str| + e.lhSize - d.lhSize
  }

  lemma AppendedNothing(e: State)
    ensures Appended(e, e, [])
  {
  }

  lemma AppendedRaw(e: State, b: Bytes)
    ensures Appended(e, AfterRaw(e, b), b)
  {
  }

  /** Flushing past the end of an earlier state. */
  lemma {:induction false} FlushExtends(d: State, e: State, i: nat, pos: nat)
    requires d.str <= e.str && d.heads <= e.heads && i <= |d.heads|
    requires Flushable(d, i, pos) && Flushable(e, |d.heads|, |d.str|)
    ensures Flushable(e, i, pos)
    ensures FlushFrom(e, i, pos) == FlushFrom(d, i, pos) + FlushFrom(e, |d.heads|, |d.str|)
    decreases |d.heads| - i
  {
    if i < |d.heads| {
      var p := d.heads[i].strPos;
      FlushExtends(d, e, i + 1, p);
      assert e.str[pos..p] == d.str[pos..p];
    } else {
      FlushLater(e, |d.heads|, pos, |d.str|);
      assert e.str[pos..|d.str|] == d.str[pos..];
    }
  }

  /** Starting earlier adds the bytes in between. */
  lemma FlushLater(e: State, i: nat, pos: nat, later: nat)
    requires pos <= later && Flushable(e, i, later)
    ensures Flushable(e, i, pos)
    ensures FlushFrom(e, i, pos) == e.str[pos..later] + FlushFrom(e, i, later)
  {
    if i < |e.heads| {
      var p := e.heads[i].strPos;
      assert e.str[pos..p] == e.str[pos..later] + e.str[later..p];
    } else {
      assert e.str[pos..] == e.str[pos..later] + e.str[later..];
    }
  }

  /** Segments compose. */
  lemma AppendedThen(c: State, d: State, e: State, v: Bytes, w: Bytes)
    requires Appended(c, d, v) && Appended(d, e, w)
    ensures Appended(c, e, v + w)
  {
    FlushExtends(d, e, |c.heads|, |c.str|);
  }

  /** Changing a head that is not flushed changes nothing. */
  lemma {:induction false} FlushSame(d: State, e: State, i: nat, pos: nat)
    requires Flushable(d, i, pos) && e.str == d.str && |e.heads| == |d.heads|
    requires forall j :: i <= j < |d.heads| ==> e.heads[j] == d.heads[j]
    ensures Flushable(e, i, pos) && FlushFrom(e, i, pos) == FlushFrom(d, i, pos)
    decreases |d.heads| - i
  {
    if i < |d.heads| { FlushSame(d, e, i + 1, d.heads[i].strPos); }
  }

  /** A list around a segment: its size is the length of the segment, its flush the encoded
      list, and rewinding restores the state before it was opened. */
  lemma ListAround(c: State, d: State, w: Bytes)
    requires Appended(AfterStart(c), d, w) && |w| <= MAX_UINT32
    ensures Opened(d, |c.heads|)
    ensures var e := AfterEnd(d, |c.heads|);
            e.heads[|c.heads|].elemsSize == |w| &&
            Appended(c, e, EncodeListOf(w)) &&
            ListSize(e, |c.heads|) == |EncodeListOf(w)| &&
            Flushable(e, |c.heads|, e.heads[|c.heads|].strPos) &&
            FlushFrom(e, |c.heads|, e.heads[|c.heads|].strPos) == EncodeListOf(w) &&
            AfterRevert(e, |c.heads|) == c
  {
    var pos := |c.heads|;
    assert d.heads[pos] == AfterStart(c).heads[pos];
    var e := AfterEnd(d, pos);
    FlushSame(d, e, pos + 1, |c.str|);
    assert d.heads[..pos] == c.heads && e.heads[..pos] == d.heads[..pos];
    assert e.str[|c.str|..|c.str|] == [];
  }

  // ---------------------------------------------------------------------------------
  // Runs
  // ---------------------------------------------------------------------------------

  /** A use of the encoder.  `Rewind(pos)` is `RevertToListStart(pos)`. */
  datatype Op = Append(s: Bytes) | Start | End | Rewind(pos: nat)

  /** An encoder state together with what has been written: the open lists, innermost last,
      the items of the outermost level and of every open list, and for each list ever opened
      and not rewound the run as it was before its start. */
  datatype Run = Run(state: State, open: seq<nat>, frames: seq<seq<Item>>, saved: seq<Run>)

  const FRESH := Run(EMPTY, [], [[]], [])

  /** Sizes stay below 2^32.  A rewind is well nested when the lists around the target are
      still open. */
  predicate Allowed(r: Run, op: Op)
  {
    match op
    case Append(s) => |r.state.str| + |s| + 5 < MAX_UINT32
    case Start => true
    case End => r.open != [] && Size(r.state) + 5 <= MAX_UINT32
    case Rewind(pos) => pos < |r.saved| && r.saved[pos].open <= r.open
  }

  function AddItem(frames: seq<seq<Item>>, item: Item): (r: seq<seq<Item>>)
    requires frames != []
  {
    frames[|frames| - 1 := frames[|frames| - 1] + [item]]
  }

  /** The bookkeeping of an operation; the encoder state is changed by the functions above. */
  function Perform(r: Run, op: Op): (q: Run)
    requires Inv(r) && Allowed(r, op)
  {
    match op
    case Append(s) => r.(state := AfterString(r.state, s), frames := AddItem(r.frames, Str(s)))
    case Start =>
      Run(AfterStart(r.state), r.open + [|r.state.heads|], r.frames + [[]], r.saved + [r])
    case End =>
      var n := |r.open| - 1;
      OpenedInRun(r);
      Run(AfterEnd(r.state, r.open[n]), r.open[..n], AddItem(r.frames[..n + 1], List(r.frames[n + 1])), r.saved)
    case Rewind(pos) =>
      r.saved[pos].(state := AfterRevert(r.state, pos))
  }

  /** The state holds the frames: each open list is a segment on top of the state before it. */
  ghost predicate Holds(state: State, open: seq<nat>, frames: seq<seq<Item>>)
    decreases |open|
  {
    |frames| == |open| + 1 &&
    if open == [] then Appended(EMPTY, state, EncodeAll(frames[0]))
    else
      var n := |open| - 1;
      open[n] < |state.heads| && state.heads[open[n]].strPos <= |state.str| &&
      var before := AfterRevert(state, open[n]);
      |before.heads| == open[n] && Holds(before, open[..n], frames[..n + 1]) &&
      Appended(AfterStart(before), state, EncodeAll(frames[n + 1]))
  }

  ghost predicate Inv(r: Run)
    decreases r
  {
    Holds(r.state, r.open, r.frames) && |r.saved| == |r.state.heads| &&
    (forall i :: 0 <= i < |r.saved| ==> r.state.heads[i].strPos <= |r.state.str|) &&
    (forall i :: 0 <= i < |r.saved| ==> Inv(r.saved[i]) && |r.saved[i].state.heads| == i) &&
    Restores(r) && Nested(r)
  }

  /** Rewinding to any list whose enclosing lists are open gives the state saved for it. */
  ghost predicate Restores(r: Run)
    requires |r.saved| == |r.state.heads|
    requires forall i :: 0 <= i < |r.saved| ==> r.state.heads[i].strPos <= |r.state.str|
  {
    forall i :: 0 <= i < |r.saved| && r.saved[i].open <= r.open ==> AfterRevert(r.state, i) == r.saved[i].state
  }

  /** Lists started later were started inside the open ones. */
  ghost predicate Nested(r: Run)
  {
    (forall k :: 0 <= k < |r.open| ==> r.open[k] < |r.saved|) &&
    (forall k, i :: 0 <= k < |r.open| && r.open[k] < i < |r.saved| ==> r.open[..k + 1] <= r.saved[i].open)
  }

  lemma OpenedInRun(r: Run)
    requires Inv(r) && Allowed(r, End)
    ensures var pos := r.open[|r.open| - 1];
            var before := AfterRevert(r.state, pos);
            Opened(r.state, pos) && |before.heads| == pos &&
            Appended(AfterStart(before), r.state, EncodeAll(r.frames[|r.open|]))
  {
    var pos := r.open[|r.open| - 1];
    ListAround(AfterRevert(r.state, pos), r.state, EncodeAll(r.frames[|r.open|]));
  }

  /** Appending to the innermost level. */
  lemma HoldsMore(state: State, open: seq<nat>, frames: seq<seq<Item>>, state': State, item: Item)
    requires Holds(state, open, frames) && Appended(state, state', Encode(item))
    ensures Holds(state', open, AddItem(frames, item))
  {
    var n := |open|;
    var items := frames[n] + [item];
    EncodeAllSnoc(frames[n], item);
    if open == [] {
      AppendedThen(EMPTY, state, state', EncodeAll(frames[0]), Encode(item));
    } else {
      var pos := open[n - 1];
      var before := AfterRevert(state, pos);
      assert state'.heads[pos] == state.heads[pos];
      assert state'.str[..state.heads[pos].strPos] == state.str[..state.heads[pos].strPos];
      assert AfterRevert(state', pos) == before;
      AppendedThen(AfterStart(before), state, state', EncodeAll(frames[n]), Encode(item));
      assert AddItem(frames, item)[..n] == frames[..n];
    }
  }

  lemma {:induction false} EncodeAllSnoc(items: seq<Item>, item: Item)
    ensures EncodeAll(items + [item]) == EncodeAll(items) + Encode(item)
    decreases |items|
  {
    if items == [] {
      assert items + [item] == [item];
      assert EncodeAll([item]) == Encode(item) + EncodeAll([item][1..]);
    } else {
      assert (items + [item])[1..] == items[1..] + [item];
      EncodeAllSnoc(items[1..], item);
    }
  }

  lemma AppendRestores(r: Run, s: Bytes)
    requires Inv(r) && Allowed(r, Append(s))
    ensures var q := Perform(r, Append(s)); q.saved == r.saved && q.state.heads == r.state.heads && |q.state.str| >= |r.state.str| && Restores(q)
  {
    var q := Perform(r, Append(s));
    forall i | 0 <= i < |q.saved| && q.saved[i].open <= q.open
      ensures AfterRevert(q.state, i) == q.saved[i].state
    {
      assert q.state.str[..q.state.heads[i].strPos] == r.state.str[..r.state.heads[i].strPos];
      assert AfterRevert(q.state, i) == AfterRevert(r.state, i);
    }
  }

  lemma AppendKeepsInv(r: Run, s: Bytes)
    requires Inv(r) && Allowed(r, Append(s))
    ensures Inv(Perform(r, Append(s)))
  {
    var q := Perform(r, Append(s));
    AppendedRaw(r.state, EncodeString(s));
    HoldsMore(r.state, r.open, r.frames, q.state, Str(s));
    AppendRestores(r, s);
    assert Nested(q);
  }

  /** A path that does not mention p is a prefix of open + [p] only within open. */
  lemma OlderPrefix(a: seq<nat>, open: seq<nat>, p: nat)
    requires p !in a
    ensures a <= open + [p] <==> a <= open
  {
    if |a| == |open| + 1 {
      assert a[|open|] in a;
      assert (open + [p])[|open|] == p;
    } else if |a| <= |open| {
      assert (open + [p])[..|a|] == open[..|a|];
    }
  }

  /** Lists saved before the list at p was started do not mention it. */
  lemma {:induction false} SavedOpenBelow(r: Run, p: nat)
    requires Inv(r) && p >= |r.saved|
    ensures p !in r.open
  {
    forall k | 0 <= k < |r.open| ensures r.open[k] < |r.saved| {
    }
  }

  lemma StartKeepsInv(r: Run)
    requires Inv(r)
    ensures Inv(Perform(r, Start))
  {
    var q := Perform(r, Start);
    var p := |r.state.heads|;
    assert AfterRevert(q.state, p) == r.state;
    assert q.open[..|r.open|] == r.open && q.frames[..|r.open| + 1] == r.frames;
    AppendedNothing(q.state);
    assert Holds(q.state, q.open, q.frames);
    StartRestores(r, q);
    StartNested(r, q);
  }

  lemma StartRestores(r: Run, q: Run)
    requires Inv(r) && q == Perform(r, Start)
    ensures Restores(q)
  {
    var p := |r.state.heads|;
    forall i | 0 <= i < |q.saved| && q.saved[i].open <= q.open
      ensures AfterRevert(q.state, i) == q.saved[i].state
    {
      assert q.state.heads[..i] == r.state.heads[..i];
      if i < p {
        SavedOpenBelow(r.saved[i], p);
        OlderPrefix(r.saved[i].open, r.open, p);
        assert AfterRevert(q.state, i) == AfterRevert(r.state, i);
      }
    }
  }

  lemma StartNested(r: Run, q: Run)
    requires Inv(r) && q == Perform(r, Start)
    ensures Nested(q)
  {
    forall k, i | 0 <= k < |q.open| && q.open[k] < i < |q.saved| ensures q.open[..k + 1] <= q.saved[i].open {
      if k < |r.open| {
        assert q.open[..k + 1] == r.open[..k + 1];
      }
    }
  }

  lemma EndHolds(r: Run, q: Run)
    requires Inv(r) && Allowed(r, End) && q == Perform(r, End)
    ensures Holds(q.state, q.open, q.frames)
  {
    var n := |r.open| - 1;
    var before := AfterRevert(r.state, r.open[n]);
    OpenedInRun(r);
    ListAround(before, r.state, EncodeAll(r.frames[n + 1]));
    HoldsMore(before, r.open[..n], r.frames[..n + 1], q.state, List(r.frames[n + 1]));
  }

  lemma EndHeads(r: Run, q: Run)
    requires Inv(r) && Allowed(r, End) && q == Perform(r, End)
    ensures |q.state.heads| == |r.state.heads| && q.state.str == r.state.str && q.saved == r.saved
    ensures forall i :: 0 <= i < |q.state.heads| ==> q.state.heads[i].strPos == r.state.heads[i].strPos
  {
    OpenedInRun(r);
  }

  lemma EndKeepsInv(r: Run)
    requires Inv(r) && Allowed(r, End)
    ensures Inv(Perform(r, End))
  {
    var q := Perform(r, End);
    EndHolds(r, q);
    EndHeads(r, q);
    EndRestores(r, q);
    EndNested(r, q);
  }

  lemma EndRestores(r: Run, q: Run)
    requires Inv(r) && Allowed(r, End) && q == Perform(r, End)
    ensures Restores(q)
  {
    var n := |r.open| - 1;
    forall i | r.open[n] < i < |r.saved| ensures |r.saved[i].open| > n {
      assert r.open[..n + 1] <= r.saved[i].open;
    }
    forall i | 0 <= i < |q.saved| && q.saved[i].open <= q.open
      ensures AfterRevert(q.state, i) == q.saved[i].state
    {
      assert q.open <= r.open && r.saved[i].open <= r.open;
      assert q.state.heads[..i] == r.state.heads[..i];
      assert AfterRevert(q.state, i) == AfterRevert(r.state, i);
    }
  }

  lemma EndNested(r: Run, q: Run)
    requires Inv(r) && Allowed(r, End) && q == Perform(r, End)
    ensures Nested(q)
  {
    forall k, i | 0 <= k < |q.open| && q.open[k] < i < |q.saved| ensures q.open[..k + 1] <= q.saved[i].open {
      assert q.open[..k + 1] == r.open[..k + 1];
    }
  }

  /** Rewinding brings back the whole run as it was before the list was started. */
  lemma RewindRestores(r: Run, pos: nat)
    requires Inv(r) && Allowed(r, Rewind(pos))
    ensures Perform(r, Rewind(pos)) == r.saved[pos]
  {
  }

  lemma PerformKeepsInv(r: Run, op: Op)
    requires Inv(r) && Allowed(r, op)
    ensures Inv(Perform(r, op))
  {
    match op
    case Append(s) => AppendKeepsInv(r, s);
    case Start => StartKeepsInv(r);
    case End => EndKeepsInv(r);
    case Rewind(pos) => RewindRestores(r, pos);
  }

  /** A sequence of operations from a fresh encoder; None when one was not well nested. */
  function RunAll(ops: seq<Op>): (r: Option<Run>)
    ensures r.Some? ==> Inv(r.value)
    decreases |ops|
  {
    if ops == [] then
      FreshInv();
      Some(FRESH)
    else
      var prev := RunAll(ops[..|ops| - 1]);
      if prev.None? || !Allowed(prev.value, ops[|ops| - 1]) then None
      else
        PerformKeepsInv(prev.value, ops[|ops| - 1]);
        Some(Perform(prev.value, ops[|ops| - 1]))
  }

  lemma FreshInv()
    ensures Inv(FRESH)
  {
    AppendedNothing(EMPTY);
  }

  /** After every well-nested run that has closed its lists, flushing gives the recursive
      encoding of what was written and not rewound, and `Size` is its length. */
  lemma FlushIsRecursiveEncoding(ops: seq<Op>)
    requires RunAll(ops).Some? && RunAll(ops).value.open == []
    ensures var r := RunAll(ops).value;
            Flushable(r.state, 0, 0) &&
            FlushFrom(r.state, 0, 0) == EncodeAll(r.frames[0]) &&
            Size(r.state) == |EncodeAll(r.frames[0])|
  {
  }

  /** The list ended last, flushed alone, is the encoding of its items, and `ListSize` is the
      length of that encoding. */
  lemma LastListAlone(ops: seq<Op>)
    requires RunAll(ops).Some? && Allowed(RunAll(ops).value, End)
    ensures var r := RunAll(ops).value;
            var n := |r.open| - 1;
            var q := Perform(r, End);
            var pos := r.open[n];
            Flushable(q.state, pos, q.state.heads[pos].strPos) &&
            FlushFrom(q.state, pos, q.state.heads[pos].strPos) == Encode(List(r.frames[n + 1])) &&
            ListSize(q.state, pos) == |Encode(List(r.frames[n + 1]))|
  {
    var r := RunAll(ops).value;
    OpenedInRun(r);
    ListAround(AfterRevert(r.state, r.open[|r.open| - 1]), r.state, EncodeAll(r.frames[|r.open|]));
  }

  // ---------------------------------------------------------------------------------
  // The encoder object
  // ---------------------------------------------------------------------------------

  /** `Encoder`.  Sizes are uint32 in the source; the preconditions keep them below 2^32, so
      that nothing wraps.  `AppendRaw` asserts its part of this itself. */
  class Encoder {
    var str: Bytes
    var lheads: seq<ListHead>
    var lhsize: nat

    ghost function S(): (e: State)
      reads this
    {
      State(str, lheads, lhsize)
    }

    constructor ()
      ensures S() == EMPTY
    {
      str, lheads, lhsize := [], [], 0;
    }

    method Reset()
      modifies this
      ensures S() == EMPTY
    {
      str, lheads, lhsize := [], [], 0;
    }

    method GetSize() returns (n: nat)
      ensures n == Size(S())
    {
      n := |str| + lhsize;
    }

    method GetListSize(pos: nat) returns (n: nat)
      requires pos < |lheads| && lheads[pos].closed && lheads[pos].elemsSize <= MAX_UINT32
      ensures n == ListSize(S(), pos)
    {
      EmittersAreReference([], lheads[pos].elemsSize);
      n := lheads[pos].elemsSize + HeadSize(lheads[pos].elemsSize);
    }

    method AppendRaw(b: Bytes)
      requires |str| + |b| < MAX_UINT32
      modifies this
      ensures S() == AfterRaw(old(S()), b)
    {
      str := str + b;
    }

    method AppendString(s: Bytes)
      requires |str| + |s| + 5 < MAX_UINT32
      modifies this
      ensures S() == AfterString(old(S()), s)
    {
      EmittersAreReference(s, 0);
      SmallTag(|s|);
      if |s| == 0 {
        AppendRaw([0x80]);
      } else {
        AppendRaw(ToRlpString(s));
      }
    }

    method ListStart() returns (pos: nat)
      modifies this
      ensures pos == |old(lheads)| && S() == AfterStart(old(S()))
    {
      pos := |lheads|;
      lheads := lheads + [ListHead(|str|, lhsize, 0, false)];
    }

    /** Ending a list twice panics. */
    method ListEnd(pos: nat)
      requires Opened(S(), pos) && Size(S()) + 5 <= MAX_UINT32
      modifies this
      ensures S() == AfterEnd(old(S()), pos)
    {
      var size := GetSize();
      var elems := size - lheads[pos].strPos - lheads[pos].baseLhSize;
      EmittersAreReference([], elems);
      lhsize := lhsize + HeadSize(elems);
      lheads := lheads[pos := lheads[pos].(elemsSize := elems, closed := true)];
    }

    method RevertToListStart(pos: nat)
      requires pos < |lheads| && lheads[pos].strPos <= |str|
      modifies this
      ensures S() == AfterRevert(old(S()), pos)
    {
      var lh := lheads[pos];
      lheads, str, lhsize := lheads[..pos], str[..lh.strPos], lh.baseLhSize;
    }

    /** `Flush` with an appender that collects; -1 is None.  An open list panics. */
    method Flush(listPos: Option<nat>) returns (out: Bytes)
      requires listPos.Some? ==> listPos.value < |lheads|
      requires var pos := if listPos.Some? then listPos.value else 0;
               Flushable(S(), pos, if listPos.Some? then lheads[pos].strPos else 0)
      ensures out == var pos := if listPos.Some? then listPos.value else 0;
                     FlushFrom(S(), pos, if listPos.Some? then lheads[pos].strPos else 0)
    {
      var strpos: nat := 0;
      var i: nat := 0;
      if listPos.Some? {
        i := listPos.value;
        strpos := lheads[i].strPos;
      }
      ghost var whole := FlushFrom(S(), i, strpos);
      out := [];
      while i < |lheads|
        invariant i <= |lheads| && Flushable(S(), i, strpos)
        invariant whole == out + FlushFrom(S(), i, strpos)
      {
        EmittersAreReference([], lheads[i].elemsSize);
        out := out + str[strpos..lheads[i].strPos];
        strpos := lheads[i].strPos;
        out := out + PutHead(0xC0, 0xF7, lheads[i].elemsSize);
        i := i + 1;
      }
      out := out + str[strpos..];
    }
  }

  /** A string header takes at most five bytes below 2^32. */
  lemma SmallTag(size: nat)
    requires size <= MAX_UINT32
    ensures |Header(0x80, 0xB7, size)| <= 5
  {
    if size >= 56 {
      PutIntBytes(size, 0);
      assert WidthOf(size) <= 4;
    }
  }
}
