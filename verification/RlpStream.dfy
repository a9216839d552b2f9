/** The streaming decoder of rlp/decode.go over a byte reader: a state machine that reads tags
    and payloads forward, keeps a stack of open lists, and never looks ahead.  It is shown to
    accept exactly what the recursion over `Split` accepts, with the same items. */
module RlpStream {
  import opened Wrappers
  import opened Rlp
  import opened RlpRaw

  datatype StreamError =
    | EOL | EOF | UnexpectedEOF | CanonSize | ElemTooLarge | ValueTooLarge
    | ExpectedString | ExpectedList | NotInList | NotAtEOL | MoreThanOneValue

  /** `listpos`: how much of an open list has been read. */
  datatype ListPos = ListPos(pos: nat, size: nat)

  // ---------------------------------------------------------------------------------
  // Positions
  // ---------------------------------------------------------------------------------

  /** Where the reader stands, and in which lists. */
  datatype Pos = Pos(at: nat, stack: seq<ListPos>)

  /** `n` more bytes read in the innermost list. */
  function Advance(stack: seq<ListPos>, n: nat): (r: seq<ListPos>)
  {
    if stack == [] then []
    else
      var top := stack[|stack| - 1];
      stack[|stack| - 1 := ListPos(top.pos + n, top.size)]
  }

  function After(p: Pos, n: nat): (r: Pos)
  {
    Pos(p.at + n, Advance(p.stack, n))
  }

  /** No list is read beyond its size, and every open list fits into what is left of the lists
      around it and of the input. */
  ghost predicate Fits(stack: seq<ListPos>, remaining: nat)
    decreases |stack|
  {
    if stack == [] then true
    else
      var n := |stack| - 1;
      var top := stack[n];
      top.pos <= top.size && top.size - top.pos <= remaining &&
      Fits(Advance(stack[..n], top.size), remaining - (top.size - top.pos))
  }

  /** How many bytes the innermost list, or the input, still has. */
  function Room(stack: seq<ListPos>, remaining: nat): (n: int)
  {
    if stack == [] then remaining else stack[|stack| - 1].size - stack[|stack| - 1].pos
  }

  ghost predicate ValidPos(input: Bytes, p: Pos)
  {
    p.at <= |input| && Fits(p.stack, |input| - p.at)
  }

  /** The bytes the next value of the innermost list must come from. */
  ghost function Window(input: Bytes, p: Pos): (w: Bytes)
    requires ValidPos(input, p)
    ensures |w| == Room(p.stack, |input| - p.at)
  {
    input[p.at..p.at + Room(p.stack, |input| - p.at)]
  }

  /** At every nesting level a list is read up to its size at most. */
  lemma {:induction false} PosWithinSize(stack: seq<ListPos>, remaining: nat, i: nat)
    requires Fits(stack, remaining) && i < |stack|
    ensures stack[i].pos <= stack[i].size
    decreases |stack|
  {
    var n := |stack| - 1;
    if i < n {
      var outer := Advance(stack[..n], stack[n].size);
      PosWithinSize(outer, remaining - (stack[n].size - stack[n].pos), i);
    }
  }

  lemma AfterStays(input: Bytes, p: Pos, n: nat)
    requires ValidPos(input, p) && n <= |Window(input, p)|
    ensures ValidPos(input, After(p, n))
    ensures Window(input, After(p, n)) == Window(input, p)[n..]
  {
    if p.stack != [] {
      var k := |p.stack| - 1;
      assert Advance(p.stack, n)[..k] == p.stack[..k];
    }
  }

  lemma WindowIsAhead(input: Bytes, p: Pos, n: nat)
    requires ValidPos(input, p)
    ensures n <= |Window(input, p)| ==> p.at + n <= |input| && Window(input, p)[..n] == input[p.at..p.at + n]
  {
  }

  lemma AfterAfter(p: Pos, m: nat, n: nat)
    ensures After(After(p, m), n) == After(p, m + n)
  {
  }

  /** Opening a list that fits. */
  lemma PushStays(input: Bytes, p: Pos, size: nat)
    requires ValidPos(input, p) && size <= |Window(input, p)|
    ensures var q := Pos(p.at, p.stack + [ListPos(0, size)]);
            ValidPos(input, q) && Window(input, q) == Window(input, p)[..size]
  {
    AfterStays(input, p, size);
    assert (p.stack + [ListPos(0, size)])[..|p.stack|] == p.stack;
  }

  /** Closing it when all of it was read. */
  lemma PopStays(input: Bytes, p: Pos, size: nat)
    requires ValidPos(input, p) && size <= |Window(input, p)|
    ensures var inner := Pos(p.at, p.stack + [ListPos(0, size)]);
            After(inner, size).stack == p.stack + [ListPos(size, size)] &&
            ValidPos(input, After(p, size))
  {
    AfterStays(input, p, size);
  }

  // ---------------------------------------------------------------------------------
  // Tags
  // ---------------------------------------------------------------------------------

  /** What the tag bytes at the head of a window say: kind, length of the tag, payload size.
      A byte below 0x80 is all tag. */
  datatype Tag = Tag(kind: Kind, length: nat, size: nat)

  /** The tag at the head of w. */
  function TagOf(w: Bytes): (r: Option<Tag>)
    ensures r.Some? ==> 1 <= r.value.length <= |w| && (r.value.kind == KByte ==> r.value.size == 0)
  {
    if w == [] then None
    else
      var b := w[0];
      if b < 0x80 then Some(Tag(KByte, 1, 0))
      else if b < 0xB8 then Some(Tag(KString, 1, b - 0x80))
      else if b < 0xC0 then LongTag(w, KString, b - 0xB7)
      else if b < 0xF8 then Some(Tag(KList, 1, b - 0xC0))
      else LongTag(w, KList, b - 0xF7)
  }

  function LongTag(w: Bytes, kind: Kind, n: nat): (r: Option<Tag>)
    requires w != [] && 1 <= n <= 8
    ensures r.Some? ==> 1 <= r.value.length <= |w|
  {
    match ReadSize(w[1..], n)
    case Err(_) => None
    case Ok(size) => Some(Tag(kind, 1 + n, size))
  }

  /** The value behind an accepted tag can be read. */
  predicate Readable(w: Bytes, t: Tag)
    requires t.length <= |w|
  {
    t.size <= |w| - t.length && !(t.kind == KString && t.size == 1 && w[t.length] < 128)
  }

  /** Tag, size and canonical single bytes: together they are `ReadKind`. */
  lemma TagIsReadKind(w: Bytes)
    ensures ReadKind(w).Ok? <==> TagOf(w).Some? && Readable(w, TagOf(w).value)
    ensures ReadKind(w).Ok? ==>
              var h, t := ReadKind(w).value, TagOf(w).value;
              h.kind == t.kind && h.totalSize == t.length + t.size && h.tagSize == (if h.kind == KByte then 0 else t.length)
  {
  }

  // ---------------------------------------------------------------------------------
  // The stream
  // ---------------------------------------------------------------------------------

  /** `Stream` over a reader of known length; -1 for `kind` is None. */
  class Stream {
    const input: Bytes
    var at: nat
    var remaining: nat
    var kind: Option<Kind>
    var size: nat
    var byteval: Byte
    var kinderr: Option<StreamError>
    var stack: seq<ListPos>

    ghost function P(): (p: Pos)
      reads this
    {
      Pos(at, stack)
    }

    /** The window of the next value. */
    ghost function W(): (w: Bytes)
      requires Valid()
      reads this
    {
      Window(input, P())
    }

    ghost predicate Valid()
      reads this
    {
      ValidPos(input, P()) && remaining == |input| - at
    }

    /** Between values, nothing cached. */
    ghost predicate Ready()
      reads this
    {
      Valid() && kind.None?
    }

    /** A tag has been read and its payload, of `size` bytes, fits. */
    ghost predicate Peeked()
      reads this
    {
      Valid() && kind.Some? && kinderr.None? && size <= |W()|
    }

    constructor (b: Bytes)
      ensures Ready() && input == b && P() == Pos(0, []) && W() == b
    {
      input := b;
      at, remaining, kind, size, byteval, kinderr, stack := 0, |b|, None, 0, 0, None, [];
    }

    /** `willRead`. */
    method WillRead(n: nat) returns (err: Option<StreamError>)
      requires Valid()
      modifies this
      ensures kind.None? && at == old(at) && kinderr == old(kinderr)
      ensures err != Some(EOL) && (err.None? <==> n <= |old(W())|)
      ensures err.None? ==> stack == Advance(old(stack), n) && remaining == old(remaining) - n
    {
      kind := None;
      if |stack| > 0 {
        var top := stack[|stack| - 1];
        if n > top.size - top.pos { return Some(ElemTooLarge); }
        stack := stack[|stack| - 1 := ListPos(top.pos + n, top.size)];
      }
      if n > remaining { return Some(StreamError.ValueTooLarge); }
      remaining := remaining - n;
      return None;
    }

    /** `readFull`: the next n bytes. */
    method ReadFull(n: nat) returns (r: Result<Bytes, StreamError>)
      requires Valid()
      modifies this
      ensures r != Err(EOL) && (r.Ok? <==> n <= |old(W())|)
      ensures r.Ok? ==> Ready() && kinderr == old(kinderr) && P() == After(old(P()), n)
      ensures r.Ok? ==> r.value == old(W())[..n] && W() == old(W())[n..]
    {
      hide Fits, Advance, Window;
      ghost var p := P();
      WindowIsAhead(input, p, n);
      var err := WillRead(n);
      if err.Some? { return Err(err.value); }
      if at + n > |input| { return Err(UnexpectedEOF); }
      var b := input[at..at + n];
      at := at + n;
      AfterStays(input, p, n);
      return Ok(b);
    }

    /** `readByte`. */
    method ReadByte() returns (r: Result<Byte, StreamError>)
      requires Valid()
      modifies this
      ensures r != Err(EOL) && (r.Ok? <==> old(W()) != [])
      ensures r.Ok? ==> Ready() && kinderr == old(kinderr) && P() == After(old(P()), 1)
      ensures r.Ok? ==> r.value == old(W())[0] && W() == old(W())[1..]
    {
      var b := ReadFull(1);
      if b.Err? { return Err(b.error); }
      return Ok(b.value[0]);
    }

    /** `readUint` for the size field of a tag. */
    method ReadUint(n: nat) returns (r: Result<nat, StreamError>)
      requires Valid() && 1 <= n <= 8
      modifies this
      ensures r != Err(EOL)
      ensures r.Ok? <==> n <= |old(W())| && (n == 1 || old(W())[0] != 0)
      ensures r.Ok? ==> Ready() && kinderr == old(kinderr) && P() == After(old(P()), n)
      ensures r.Ok? ==> r.value == FromBigEndian(old(W())[..n]) && W() == old(W())[n..]
    {
      if n == 1 {
        ghost var w := W();
        var b := ReadByte();
        if b.Err? { return Err(b.error); }
        OneDigit(w);
        return Ok(b.value);
      }
      var buf := ReadFull(n);
      if buf.Err? { return Err(buf.error); }
      if buf.value[0] == 0 { return Err(StreamError.CanonSize); }
      return Ok(FromBigEndian(buf.value));
    }

    /** `readKind`; the caller stores kind and size. */
    method ReadKind() returns (k: Kind, n: nat, err: Option<StreamError>)
      requires Valid()
      modifies this
      ensures err != Some(EOL) && (err.None? <==> TagOf(old(W())).Some?)
      ensures err.None? ==> Ready() && kinderr == old(kinderr)
      ensures err.None? ==> var t := TagOf(old(W())).value;
                            k == t.kind && n == t.size && P() == After(old(P()), t.length) && W() == old(W())[t.length..]
      ensures err.None? && k == KByte ==> byteval == old(W())[0]
    {
      ghost var p, w := P(), W();
      var head := ReadByte();
      if head.Err? {
        return KByte, 0, Some(if |stack| == 0 then EOF else head.error);
      }
      var b := head.value;
      byteval := 0;
      if b < 0x80 {
        byteval := b;
        return KByte, 0, None;
      } else if b < 0xB8 {
        return KString, b - 0x80, None;
      } else if b < 0xC0 {
        k := KString;
        n, err := ReadLongSize(b - 0xB7);
        LongTagRead(p, w, b - 0xB7);
      } else if b < 0xF8 {
        return KList, b - 0xC0, None;
      } else {
        k := KList;
        n, err := ReadLongSize(b - 0xF7);
        LongTagRead(p, w, b - 0xF7);
      }
    }

    /** The size behind a long tag. */
    method ReadLongSize(n: nat) returns (size: nat, err: Option<StreamError>)
      requires Valid() && 1 <= n <= 8
      modifies this
      ensures err != Some(EOL) && (err.None? <==> ReadSize(old(W()), n).Ok?)
      ensures err.None? ==> Ready() && kinderr == old(kinderr)
      ensures err.None? ==> size == ReadSize(old(W()), n).value
      ensures err.None? ==> P() == After(old(P()), n) && W() == old(W())[n..]
    {
      ghost var w := W();
      OneDigit(w);
      var r := ReadUint(n);
      if r.Err? { return 0, Some(r.error); }
      if r.value < 56 { return r.value, Some(StreamError.CanonSize); }
      return r.value, None;
    }

    /** `Kind` between values: the tag is read, and its size checked against the innermost
        list or the input.  At the end of a list nothing is read. */
    method Kind() returns (k: Kind, n: nat, err: Option<StreamError>)
      requires Ready() || Peeked()
      modifies this
      ensures old(kind).Some? ==> err.None? && k == old(kind).value && n == old(size) && Peeked()
      ensures old(kind).Some? ==> P() == old(P()) && kind == old(kind) && size == old(size) && byteval == old(byteval)
      ensures old(kind).None? ==>
                (err == Some(EOL) <==> old(stack) != [] && old(W()) == []) &&
                (err.None? <==> TagOf(old(W())).Some? && TagOf(old(W())).value.size <= |old(W())| - TagOf(old(W())).value.length)
      ensures old(kind).None? && err == Some(EOL) ==> Ready() && P() == old(P())
      ensures old(kind).None? && err.None? ==>
                var t := TagOf(old(W())).value;
                Peeked() && k == t.kind && kind == Some(k) && n == t.size && size == n &&
                P() == After(old(P()), t.length) && W() == old(W())[t.length..] &&
                (k == KByte ==> byteval == old(W())[0])
    {
      if kind.None? {
        kinderr := None;
        if |stack| > 0 && stack[|stack| - 1].pos == stack[|stack| - 1].size {
          return KByte, 0, Some(EOL);
        }
        ghost var w := W();
        var k', n', e := ReadKind();
        kind, size, kinderr := Some(k'), n', e;
        if e.None? {
          if |stack| == 0 {
            if size > remaining { kinderr := Some(StreamError.ValueTooLarge); }
          } else if size > stack[|stack| - 1].size - stack[|stack| - 1].pos {
            kinderr := Some(ElemTooLarge);
          }
        }
      }
      return kind.value, size, kinderr;
    }

    /** `Bytes`, whether or not the tag has been read. */
    method GetBytes() returns (r: Result<Bytes, StreamError>)
      requires Ready() || Peeked()
      modifies this
      ensures r == Err(EOL) <==> old(kind).None? && old(stack) != [] && old(W()) == []
      ensures old(kind).Some? ==>
                (r.Ok? <==> old(kind) == Some(KByte) || (old(kind) == Some(KString) && !(old(size) == 1 && old(W())[0] < 128)))
      ensures old(kind) == Some(KByte) && r.Ok? ==> r.value == [old(byteval)] && Ready() && P() == old(P())
      ensures old(kind) == Some(KString) && r.Ok? ==> r.value == old(W())[..old(size)] && Ready() && P() == After(old(P()), old(size))
      ensures old(kind).None? ==> (r.Ok? <==> TagOf(old(W())).Some? && TagOf(old(W())).value.kind != KList && Readable(old(W()), TagOf(old(W())).value))
      ensures old(kind).None? && r.Ok? ==>
                var t := TagOf(old(W())).value;
                Ready() && P() == After(old(P()), t.length + t.size) &&
                r.value == if t.kind == KByte then [old(W())[0]] else old(W())[t.length..t.length + t.size]
    {
      hide TagOf, Fits, Advance;
      ghost var p, w := P(), W();
      var k, n, err := Kind();
      if err.Some? { return Err(Cause(err)); }
      AfterAfter(p, |w| - |W()|, n);
      r := BytesOf(k, n);
    }

    /** The payload of a string whose tag has been read. */
    method BytesOf(k: Kind, n: nat) returns (r: Result<Bytes, StreamError>)
      requires Peeked() && kind == Some(k) && size == n
      modifies this
      ensures r != Err(EOL)
      ensures r.Ok? <==> k == KByte || (k == KString && !(n == 1 && old(W())[0] < 128))
      ensures k == KByte && r.Ok? ==> r.value == [old(byteval)] && Ready() && P() == old(P())
      ensures k == KString && r.Ok? ==> r.value == old(W())[..n] && Ready() && P() == After(old(P()), n)
    {
      if k == KByte {
        kind := None;
        return Ok([byteval]);
      } else if k == KString {
        var b := ReadFull(n);
        if b.Err? { return b; }
        if n == 1 && b.value[0] < 128 { return Err(StreamError.CanonSize); }
        return b;
      } else {
        return Err(StreamError.ExpectedString);
      }
    }

    /** `List`, whether or not the tag has been read. */
    method List() returns (r: Result<nat, StreamError>)
      requires Ready() || Peeked()
      modifies this
      ensures r == Err(EOL) <==> old(kind).None? && old(stack) != [] && old(W()) == []
      ensures old(kind).Some? ==> (r.Ok? <==> old(kind) == Some(KList))
      ensures old(kind).Some? && r.Ok? ==> r.value == old(size) && Ready()
      ensures old(kind).Some? && r.Ok? ==>
                P() == Pos(old(at), old(stack) + [ListPos(0, old(size))]) && W() == old(W())[..old(size)]
      ensures old(kind).None? ==>
                (r.Ok? <==> TagOf(old(W())).Some? && TagOf(old(W())).value.kind == KList &&
                            TagOf(old(W())).value.size <= |old(W())| - TagOf(old(W())).value.length)
      ensures old(kind).None? && r.Ok? ==>
                var t := TagOf(old(W())).value;
                var q := After(old(P()), t.length);
                r.value == t.size && Ready() && P() == Pos(q.at, q.stack + [ListPos(0, t.size)]) &&
                W() == old(W())[t.length..t.length + t.size]
    {
      hide TagOf, Fits, Advance;
      ghost var w := W();
      var k, n, err := Kind();
      if err.Some? { return Err(Cause(err)); }
      if k != KList { return Err(StreamError.ExpectedList); }
      ghost var v := W();
      assert v[..n] == w[|w| - |v|..|w| - |v| + n];
      Push(n);
      return Ok(n);
    }

    method Push(n: nat)
      requires Peeked() && n <= |W()|
      modifies this
      ensures Ready() && P() == Pos(old(at), old(stack) + [ListPos(0, n)]) && W() == old(W())[..n]
    {
      PushStays(input, P(), n);
      stack := stack + [ListPos(0, n)];
      kind, size := None, 0;
    }

    /** `ListEnd`. */
    method ListEnd() returns (err: Option<StreamError>)
      requires Ready()
      modifies this
      ensures err.None? <==> old(stack) != [] && old(W()) == []
      ensures err != Some(EOL) && at == old(at)
      ensures err.None? ==> var n := |old(stack)| - 1;
                            Ready() && P() == Pos(old(at), Advance(old(stack)[..n], old(stack)[n].size))
    {
      if |stack| == 0 { return Some(NotInList); }
      var top := stack[|stack| - 1];
      if top.pos != top.size { return Some(NotAtEOL); }
      stack := stack[..|stack| - 1];
      if |stack| > 0 {
        stack := stack[|stack| - 1 := ListPos(stack[|stack| - 1].pos + top.size, stack[|stack| - 1].size)];
      }
      kind, size := None, 0;
      return None;
    }

    /** `decodeInterface`: an item is read exactly when `Split` would read it from the window,
        and the stream then stands behind it. */
    method DecodeInterface() returns (r: Result<Item, StreamError>)
      requires Ready()
      modifies this
      ensures r.Ok? <==> Parse(old(W())).Some?
      ensures r.Ok? ==> var (item, rest) := Parse(old(W())).value;
                        r.value == item && Ready() && P() == After(old(P()), |old(W())| - |rest|) && W() == rest
      ensures r == Err(EOL) <==> old(stack) != [] && old(W()) == []
      ensures r == Err(EOL) ==> Ready() && P() == old(P())
      decreases |W()|, 1
    {
      hide Parse, TagOf, RlpRaw.ReadKind, Fits, Advance;
      ghost var p, w := P(), W();
      ParseOfString(w);
      var k, n, err := Kind();
      if err.Some? { return Err(err.value); }
      if k == KList {
        r := DecodeListSlice(p, w);
      } else {
        r := DecodeString(p, w);
      }
    }

    /** The call of `Bytes` in `decodeInterface`. */
    method DecodeString(ghost p: Pos, ghost w: Bytes) returns (r: Result<Item, StreamError>)
      requires Peeked() && kind != Some(KList)
      requires ValidPos(input, p) && w == Window(input, p) && |W()| < |w| && TagOf(w) == Some(Tag(kind.value, |w| - |W()|, size))
      requires P() == After(p, |w| - |W()|) && W() == w[|w| - |W()|..] && (kind == Some(KByte) ==> byteval == w[0] && size == 0)
      modifies this
      ensures r.Ok? <==> Parse(w).Some?
      ensures r.Ok? ==> r.value == Parse(w).value.0 && Ready() && P() == After(p, |w| - |Parse(w).value.1|)
      ensures r.Ok? ==> W() == Parse(w).value.1
      ensures r != Err(EOL)
    {
      hide Parse, TagOf, RlpRaw.ReadKind, ValidPos, Window, After;
      ghost var j := |w| - |W()|;
      StringParse(w, kind.value, j, size);
      AfterAfter(p, j, size);
      AfterStays(input, P(), size);
      var b := GetBytes();
      if b.Err? { return Err(b.error); }
      return Ok(Str(b.value));
    }

    /** `decodeListSlice` with `decodeInterface` for the elements. */
    method DecodeListSlice(ghost p: Pos, ghost w: Bytes) returns (r: Result<Item, StreamError>)
      requires Peeked() && kind == Some(KList)
      requires ValidPos(input, p) && w == Window(input, p) && |W()| <= |w| && TagOf(w) == Some(Tag(KList, |w| - |W()|, size))
      requires P() == After(p, |w| - |W()|) && W() == w[|w| - |W()|..]
      modifies this
      ensures r.Ok? <==> Parse(w).Some?
      ensures r.Ok? ==> r.value == Parse(w).value.0 && Ready() && P() == After(p, |w| - |Parse(w).value.1|)
      ensures r.Ok? ==> W() == Parse(w).value.1
      ensures r != Err(EOL)
      decreases |w|, 0
    {
      hide Parse, ParseAll, TagOf, ValidPos, Window, Advance;
      ghost var q, v := P(), W();
      ListParse(w, |w| - |v|, size);
      var n := List();
      if n.Err? { return Err(CauseOf(n)); }
      PopStays(input, q, n.value);
      AfterAfter(p, |w| - |v|, n.value);
      AfterStays(input, q, n.value);
      var items := DecodeElems(n.value);
      if items.Err? { return Err(items.error); }
      assert stack == q.stack + [ListPos(n.value, n.value)] && stack[..|stack| - 1] == q.stack;
      var err := ListEnd();
      if err.Some? { return Err(Cause(err)); }
      return Ok(Item.List(items.value));
    }

    /** The elements of a list that was just opened. */
    method DecodeElems(n: nat) returns (r: Result<seq<Item>, StreamError>)
      requires Ready() && stack != [] && n == |W()|
      modifies this
      ensures r != Err(EOL)
      ensures r.Ok? <==> ParseAll(old(W())).Some?
      ensures r.Ok? ==> r.value == ParseAll(old(W())).value && Ready() && P() == After(old(P()), |old(W())|) && W() == []
      decreases |W()|, 3
    {
      if n == 0 { return Ok([]); }
      r := DecodeSliceElems();
    }

    /** `decodeSliceElems`: elements until the end of the innermost list. */
    method DecodeSliceElems() returns (r: Result<seq<Item>, StreamError>)
      requires Ready() && stack != []
      modifies this
      ensures r != Err(EOL)
      ensures r.Ok? <==> ParseAll(old(W())).Some?
      ensures r.Ok? ==> r.value == ParseAll(old(W())).value && Ready() && P() == After(old(P()), |old(W())|) && W() == []
      decreases |W()|, 2
    {
      hide Parse, ParseAll;
      ghost var p, w := P(), W();
      var items: seq<Item> := [];
      JoinNothing(ParseAll(w));
      while true
        invariant Ready() && |W()| <= |w| && P() == After(p, |w| - |W()|) && stack != []
        invariant ParseAll(w) == Join(items, ParseAll(W()))
        decreases |W()|
      {
        ghost var v := W();
        ParseAllStep(items, v);
        var e := DecodeInterface();
        if e == Err(EOL) {
          break;
        } else if e.Err? {
          return Err(e.error);
        }
        AfterAfter(p, |w| - |v|, |v| - |W()|);
        items := items + [e.value];
      }
      return Ok(items);
    }
  }

  /** `DecodeBytes` into an `interface{}`. */
  method DecodeBytes(b: Bytes) returns (r: Result<Item, StreamError>)
    ensures r.Ok? <==> Parse(b).Some? && Parse(b).value.1 == []
    ensures r.Ok? ==> r.value == Parse(b).value.0
    ensures |b| < TWO_TO_THE_64 ==> forall item :: r == Ok(item) <==> b == Encode(item)
  {
    hide Parse, ParseAll, TagOf, Fits, Window;
    var s := new Stream(b);
    r := s.DecodeInterface();
    forall item | |b| < TWO_TO_THE_64 ensures Parse(b) == Some((item, [])) <==> b == Encode(item) {
      ParseIffEncoded(b, item, []);
      assert Encode(item) + [] == Encode(item);
    }
    if r.Ok? && s.remaining > 0 {
      return Err(MoreThanOneValue);
    }
  }

  /** The error to hand on. */
  function Cause(err: Option<StreamError>): (e: StreamError)
  {
    match err case Some(e) => e case None => EOF
  }

  function CauseOf<T>(r: Result<T, StreamError>): (e: StreamError)
  {
    match r case Err(e) => e case Ok(_) => EOF
  }

  /** What `Parse` makes of a window that starts with the tag of a list that fits. */
  lemma ParseOfList(w: Bytes)
    requires TagOf(w).Some? && TagOf(w).value.kind == KList && TagOf(w).value.size <= |w| - TagOf(w).value.length
    ensures var t := TagOf(w).value;
            Parse(w) == match ParseAll(w[t.length..t.length + t.size])
                        case None => None
                        case Some(items) => Some((Item.List(items), w[t.length + t.size..]))
  {
    TagIsReadKind(w);
  }

  /** What it makes of any other. */
  lemma ParseOfString(w: Bytes)
    ensures Parse(w).Some? ==> TagOf(w).Some? && Readable(w, TagOf(w).value)
    ensures TagOf(w).Some? && Readable(w, TagOf(w).value) && TagOf(w).value.kind != KList ==>
              var t := TagOf(w).value;
              Parse(w) == Some((Str(if t.kind == KByte then [w[0]] else w[t.length..t.length + t.size]), w[t.length + t.size..]))
  {
    TagIsReadKind(w);
    if w != [] && w[0] < 0x80 { assert w[0..1] == [w[0]]; }
  }

  /** The same for a list whose tag takes j bytes. */
  lemma ListParse(w: Bytes, j: nat, n: nat)
    requires TagOf(w) == Some(Tag(KList, j, n)) && j + n <= |w|
    ensures w[j..][n..] == w[j + n..] && w[j..][..n] == w[j..j + n]
    ensures Parse(w) == match ParseAll(w[j..][..n])
                        case None => None
                        case Some(items) => Some((Item.List(items), w[j + n..]))
  {
    hide Parse, ParseAll, TagOf;
    ParseOfList(w);
  }

  /** The same for a string whose tag takes j bytes. */
  lemma StringParse(w: Bytes, k: Kind, j: nat, n: nat)
    requires TagOf(w) == Some(Tag(k, j, n)) && k != KList && j + n <= |w|
    ensures w[j..][n..] == w[j + n..] && w[j..][..n] == w[j..j + n]
    ensures k == KByte ==> n == 0 && Parse(w) == Some((Str([w[0]]), w[j..]))
    ensures k == KString ==>
              Parse(w) == if n == 1 && w[j] < 128 then None else Some((Str(w[j..j + n]), w[j + n..]))
  {
    hide Parse, TagOf;
    ParseOfString(w);
  }

  /** Items already read, before the rest. */
  function Join(items: seq<Item>, rest: Option<seq<Item>>): (r: Option<seq<Item>>)
  {
    match rest case None => None case Some(more) => Some(items + more)
  }

  lemma JoinNothing(rest: Option<seq<Item>>)
    ensures Join([], rest) == rest
  {
    if rest.Some? { assert [] + rest.value == rest.value; }
  }

  lemma ParseAllStep(items: seq<Item>, v: Bytes)
    ensures v == [] ==> Join(items, ParseAll(v)) == Some(items)
    ensures v != [] && Parse(v).None? ==> ParseAll(v).None?
    ensures v != [] && Parse(v).Some? ==>
              Join(items, ParseAll(v)) == Join(items + [Parse(v).value.0], ParseAll(Parse(v).value.1))
  {
    if v == [] {
      assert items + [] == items;
    } else if Parse(v).Some? && ParseAll(Parse(v).value.1).Some? {
      var x, more := Parse(v).value.0, ParseAll(Parse(v).value.1).value;
      assert items + ([x] + more) == (items + [x]) + more;
    }
  }

  lemma OneDigit(w: Bytes)
    ensures w != [] ==> FromBigEndian(w[..1]) == w[0]
  {
    if w != [] {
      assert w[..1] == [w[0]] && [w[0]][..0] == [];
    }
  }

  lemma LongTagRead(p: Pos, w: Bytes, n: nat)
    ensures After(After(p, 1), n) == After(p, 1 + n)
    ensures 1 + n <= |w| ==> w[1..][n..] == w[1 + n..]
  {
  }
}
