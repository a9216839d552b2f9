/** Key encodings of ebla/trie/encoding.go: key bytes, hex keys with a terminator, and the
    compact (hex-prefix) form of Appendix C of the Yellow Paper. */
module HexPrefix {
  import opened Wrappers
  import opened Rlp
  import opened Trie

  /** `hasTerm`. */
  predicate HasTerm(p: Path)
  {
    |p| > 0 && p[|p| - 1] == 16
  }

  /** The nibbles of a path without its terminator. */
  function Body(p: Path): (r: Path)
  {
    if HasTerm(p) then p[..|p| - 1] else p
  }

  /** A nibble sequence with or without terminator. */
  predicate HexPath(p: Path)
  {
    Nibbles(Body(p))
  }

  /** Two nibbles a byte; an odd last nibble is ignored.  The sum is cut to a byte as in the
      source, which makes the function total; nibbles never need the cut. */
  function Pack(ns: Path): (b: Bytes)
    ensures |b| == |ns| / 2
    decreases |ns|
  {
    if |ns| < 2 then [] else [(16 * (ns[0] as int) + ns[1] as int) % 256] + Pack(ns[2..])
  }

  function Unpack(b: Bytes): (ns: Path)
    ensures |ns| == 2 * |b| && Nibbles(ns)
    decreases |b|
  {
    if b == [] then [] else [b[0] / 16, b[0] % 16] + Unpack(b[1..])
  }

  /** Appendix C: flag nibble with the terminator in bit 1 and the parity in bit 0. */
  function Compact(p: Path): (c: Bytes)
    ensures |c| == |Body(p)| / 2 + 1
  {
    var flag := if HasTerm(p) then 2 else 0;
    var ns := Body(p);
    if |ns| % 2 == 1 then [16 * (flag + 1) + ns[0] as int % 16] + Pack(ns[1..])
    else [16 * flag] + Pack(ns)
  }

  /** `compact_to_hex` as a function. */
  function FromCompact(c: Bytes): (p: Path)
    requires c != []
  {
    DropFlag(Unpack(c))
  }

  /** The nibbles behind the flag nibble, with the padding nibble of an even key dropped and
      the terminator restored. */
  function DropFlag(ns: Path): (p: Path)
    requires |ns| >= 2
  {
    var body := if ns[0] % 2 == 1 then ns[1..] else ns[2..];
    if ns[0] < 2 then body else body + [16]
  }

  // ---------------------------------------------------------------------------------
  // Round trips
  // ---------------------------------------------------------------------------------

  lemma {:induction false} UnpackPack(ns: Path)
    requires Nibbles(ns) && |ns| % 2 == 0
    ensures Unpack(Pack(ns)) == ns
    decreases |ns|
  {
    if ns != [] {
      UnpackPack(ns[2..]);
      assert Pack(ns)[1..] == Pack(ns[2..]);
      assert ns == [ns[0], ns[1]] + ns[2..];
    }
  }

  lemma {:induction false} PackUnpack(b: Bytes)
    ensures Pack(Unpack(b)) == b
    decreases |b|
  {
    if b != [] {
      PackUnpack(b[1..]);
      assert Unpack(b)[2..] == Unpack(b[1..]);
    }
  }

  lemma UnpackCons(b: Byte, rest: Bytes)
    ensures Unpack([b] + rest) == [b / 16, b % 16] + Unpack(rest)
  {
    assert ([b] + rest)[1..] == rest;
  }

  lemma DropFlagOf(flag: Byte, low: Byte, packed: Path)
    ensures var body := if flag % 2 == 1 then [low] + packed else packed;
            DropFlag([flag, low] + packed) == if flag < 2 then body else body + [16]
  {
    assert ([flag, low] + packed)[2..] == packed;
    assert ([flag, low] + packed)[1..] == [low] + packed;
  }

  lemma SplitByte(high: nat, low: nat)
    requires high < 16 && low < 16
    ensures (16 * high + low) / 16 == high && (16 * high + low) % 16 == low
  {
  }

  lemma UnpackByte(high: Byte, low: Byte, rest: Bytes)
    requires high < 16 && low < 16
    ensures Unpack([16 * high + low] + rest) == [high, low] + Unpack(rest)
  {
    hide Unpack;
    var b: Byte := 16 * high + low;
    SplitByte(high, low);
    UnpackCons(b, rest);
    assert [b / 16, b % 16] == [high, low];
  }

  /** Decoding a flag byte followed by packed nibbles. */
  lemma FromFlag(flag: Byte, low: Byte, packed: Path)
    requires flag < 16 && low < 16 && Nibbles(packed) && |packed| % 2 == 0
    ensures Unpack([16 * flag + low] + Pack(packed)) == [flag, low] + packed
  {
    hide Unpack, Pack;
    UnpackPack(packed);
    UnpackByte(flag, low, Pack(packed));
  }

  /** The byte strings that are compact keys: a known flag, and no stray low nibble. */
  predicate ValidCompact(c: Bytes)
  {
    c != [] && c[0] / 16 < 4 && (c[0] / 16 % 2 == 0 ==> c[0] % 16 == 0)
  }

  function WithTerm(body: Path, term: bool): (p: Path)
  {
    if term then body + [16] else body
  }

  lemma BodyWithTerm(body: Path, term: bool)
    requires Nibbles(body)
    ensures var p := WithTerm(body, term);
            HasTerm(p) == term && Body(p) == body
  {
  }

  lemma CompactFirst(p: Path, low: Byte, rest: Path)
    requires Body(p) == [low] + rest && |rest| % 2 == 0
    ensures Compact(p)[0] == 16 * (if HasTerm(p) then 3 else 1) + low % 16
  {
  }

  lemma CompactRest(p: Path, low: Byte, rest: Path)
    requires Body(p) == [low] + rest && |rest| % 2 == 0
    ensures Compact(p)[1..] == Pack(rest)
  {
    assert Body(p)[1..] == rest;
  }

  /** Encoding what was read behind an odd or an even flag. */
  lemma CompactOfOdd(p: Path, low: Byte, rest: Path)
    requires Body(p) == [low] + rest && |rest| % 2 == 0
    ensures Compact(p) == [16 * (if HasTerm(p) then 3 else 1) + low % 16] + Pack(rest)
  {
    CompactFirst(p, low, rest);
    CompactRest(p, low, rest);
    var c := Compact(p);
    assert c == [c[0]] + c[1..];
  }

  lemma CompactOfEven(p: Path)
    requires |Body(p)| % 2 == 0
    ensures Compact(p) == [16 * (if HasTerm(p) then 2 else 0)] + Pack(Body(p))
  {
  }

  /** Compact keys read back for every nibble sequence, with or without terminator. */
  lemma CompactRoundTrip(p: Path)
    requires HexPath(p)
    ensures FromCompact(Compact(p)) == p
  {
    var ns := Body(p);
    if |ns| % 2 == 1 {
      assert ns == [ns[0]] + ns[1..];
      OddRoundTrip(p, ns[0], ns[1..]);
    } else {
      EvenRoundTrip(p);
    }
  }

  lemma OddRoundTrip(p: Path, low: Byte, rest: Path)
    requires HexPath(p) && Body(p) == [low] + rest && |rest| % 2 == 0
    ensures FromCompact(Compact(p)) == p
  {
    hide Compact, Pack, Unpack, DropFlag;
    var flag := if HasTerm(p) then 3 else 1;
    BodyAndTerm(p);
    assert Nibbles(rest) && low < 16 by { assert low == Body(p)[0]; assert rest == Body(p)[1..]; }
    CompactOfOdd(p, low, rest);
    FromFlag(flag, low, rest);
    DropFlagOf(flag, low, rest);
  }

  lemma EvenRoundTrip(p: Path)
    requires HexPath(p) && |Body(p)| % 2 == 0
    ensures FromCompact(Compact(p)) == p
  {
    hide Compact, Pack, Unpack, DropFlag;
    var flag := if HasTerm(p) then 2 else 0;
    BodyAndTerm(p);
    CompactOfEven(p);
    FromFlag(flag, 0, Body(p));
    DropFlagOf(flag, 0, Body(p));
  }

  lemma BodyAndTerm(p: Path)
    requires HexPath(p)
    ensures Nibbles(Body(p)) && p == if HasTerm(p) then Body(p) + [16] else Body(p)
  {
  }

  /** Encoding what was read behind an odd flag nibble. */
  lemma RecodeOdd(flag: Byte, low: Byte, rest: Path)
    requires flag % 2 == 1 && low < 16 && Nibbles(rest) && |rest| % 2 == 0
    ensures var p := DropFlag([flag, low] + rest);
            HexPath(p) && Compact(p) == [16 * (if flag < 2 then 1 else 3) + low % 16] + Pack(rest)
  {
    hide Compact, Pack, DropFlag;
    DropFlagOf(flag, low, rest);
    BodyWithTerm([low] + rest, flag >= 2);
    CompactOfOdd(WithTerm([low] + rest, flag >= 2), low, rest);
  }

  /** Encoding what was read behind an even flag nibble. */
  lemma RecodeEven(flag: Byte, low: Byte, rest: Path)
    requires flag % 2 == 0 && Nibbles(rest) && |rest| % 2 == 0
    ensures var p := DropFlag([flag, low] + rest);
            HexPath(p) && Compact(p) == [16 * (if flag < 2 then 0 else 2)] + Pack(rest)
  {
    DropFlagOf(flag, low, rest);
    BodyWithTerm(rest, flag >= 2);
  }

  /** The first byte survives exactly when its flag is known and its padding is zero. */
  lemma FirstByte(c: Byte)
    ensures var flag, low := c / 16, c % 16;
            c == 16 * flag + low && flag < 16 && low < 16 &&
            (flag % 2 == 1 ==> (16 * (if flag < 2 then 1 else 3) + low % 16 == c <==> flag < 4)) &&
            (flag % 2 == 0 ==> (16 * (if flag < 2 then 0 else 2) == c <==> flag < 4 && low == 0))
  {
  }

  /** Decoding and encoding again keeps everything behind the first byte. */
  lemma RecodeTail(c: Bytes)
    requires c != []
    ensures var p := FromCompact(c);
            HexPath(p) && Compact(p)[1..] == c[1..] &&
            (Compact(p)[0] == c[0] <==> ValidCompact(c))
  {
    var flag, low, rest := c[0] / 16, c[0] % 16, Unpack(c[1..]);
    FirstByte(c[0]);
    PackUnpack(c[1..]);
    var p := FromCompact(c);
    assert p == DropFlag([flag, low] + rest);
    if flag % 2 == 1 {
      RecodeOdd(flag, low, rest);
      assert Compact(p)[1..] == c[1..];
    } else {
      RecodeEven(flag, low, rest);
      assert Compact(p)[1..] == c[1..];
    }
  }

  /** Decoding is also a right inverse, exactly on the valid compact keys. */
  lemma CompactOnto(c: Bytes)
    requires c != []
    ensures HexPath(FromCompact(c))
    ensures Compact(FromCompact(c)) == c <==> ValidCompact(c)
  {
    RecodeTail(c);
    var d := Compact(FromCompact(c));
    assert d == [d[0]] + d[1..] && c == [c[0]] + c[1..];
  }

  lemma CompactInjective(p: Path, q: Path)
    requires HexPath(p) && HexPath(q) && Compact(p) == Compact(q)
    ensures p == q
  {
    CompactRoundTrip(p);
    CompactRoundTrip(q);
  }

  /** The hex key of a byte key. */
  function HexKey(key: Bytes): (p: Path)
    ensures |p| == 2 * |key| + 1
  {
    Unpack(key) + [16]
  }

  lemma HexKeyIsKey(key: Bytes)
    ensures IsKey(HexKey(key), 2 * |key| + 1)
    ensures Pack(Body(HexKey(key))) == key
  {
    assert HexKey(key)[..2 * |key|] == Unpack(key);
    PackUnpack(key);
  }

  // ---------------------------------------------------------------------------------
  // The loops over caller buffers
  // ---------------------------------------------------------------------------------

  lemma {:induction false} PackAt(ns: Path, i: nat)
    requires Nibbles(ns) && i < |ns| / 2
    ensures Pack(ns)[i] == 16 * ns[2 * i] + ns[2 * i + 1]
    decreases i
  {
    var rest := Pack(ns[2..]);
    assert Pack(ns) == [(16 * (ns[0] as int) + ns[1] as int) % 256] + rest;
    if i > 0 {
      PackAt(ns[2..], i - 1);
    }
  }

  lemma {:induction false} UnpackAt(b: Bytes, i: nat)
    requires i < |b|
    ensures Unpack(b)[2 * i] == b[i] / 16 && Unpack(b)[2 * i + 1] == b[i] % 16
    decreases i
  {
    if i > 0 {
      UnpackAt(b[1..], i - 1);
    }
  }

  /** `decodeNibbles`, writing from index `at`. */
  method DecodeNibbles(nibbles: Path, buf: array<Byte>, at: nat)
    requires Nibbles(nibbles) && |nibbles| % 2 == 0
    requires at + |nibbles| / 2 <= buf.Length
    modifies buf
    ensures buf[..at] == old(buf[..at])
    ensures buf[at..at + |nibbles| / 2] == Pack(nibbles)
    ensures buf[at + |nibbles| / 2..] == old(buf[at + |nibbles| / 2..])
  {
    var bi, ni := 0, 0;
    while ni < |nibbles|
      invariant ni == 2 * bi && bi <= |nibbles| / 2
      invariant forall j :: 0 <= j < bi ==> buf[at + j] == 16 * nibbles[2 * j] + nibbles[2 * j + 1]
      invariant forall j :: 0 <= j < at || at + bi <= j < buf.Length ==> buf[j] == old(buf[j])
    {
      buf[at + bi] := 16 * nibbles[ni] + nibbles[ni + 1];
      bi, ni := bi + 1, ni + 2;
    }
    forall j | 0 <= j < |nibbles| / 2 ensures buf[at + j] == Pack(nibbles)[j] {
      PackAt(nibbles, j);
    }
  }

  /** `hex_to_compact`: the compact key is left in the first `n` bytes of the caller's buffer. */
  method HexToCompact(hex: Path, buf: array<Byte>) returns (n: nat)
    requires HexPath(hex) && |Body(hex)| / 2 + 1 <= buf.Length
    modifies buf
    ensures n == |Compact(hex)| && buf[..n] == Compact(hex)
    ensures buf[n..] == old(buf[n..])
  {
    var input := hex;
    var terminator := 0;
    if HasTerm(input) {
      terminator := 1;
      input := input[..|input| - 1];
    }
    n := |input| / 2 + 1;
    buf[0] := terminator * 32;
    if |input| % 2 == 1 {
      buf[0] := buf[0] + 16;
      buf[0] := buf[0] + input[0];
      input := input[1..];
    }
    DecodeNibbles(input, buf, 1);
    assert buf[0] == buf[..1][0];
    assert buf[1..n] == Compact(hex)[1..];
    assert buf[..n] == [buf[0]] + buf[1..n];
  }

  /** `keybytes_to_hex`. */
  method KeybytesToHex(input: Bytes, out: array<Byte>)
    requires out.Length == 2 * |input| + 1
    modifies out
    ensures out[..] == HexKey(input)
  {
    var i := 0;
    while i < |input|
      invariant i <= |input|
      invariant forall j :: 0 <= j < i ==> out[2 * j] == input[j] / 16 && out[2 * j + 1] == input[j] % 16
    {
      out[2 * i] := input[i] / 16;
      out[2 * i + 1] := input[i] % 16;
      i := i + 1;
    }
    out[out.Length - 1] := 16;
    forall j | 0 <= j < out.Length - 1 ensures out[j] == HexKey(input)[j] {
      UnpackAt(input, j / 2);
      assert j == 2 * (j / 2) || j == 2 * (j / 2) + 1;
    }
  }

  /** `compact_to_hex`. */
  method CompactToHex(compact: Bytes) returns (ret: Bytes)
    requires compact != []
    ensures ret == FromCompact(compact)
  {
    var nibbles := new Byte[2 * |compact| + 1];
    KeybytesToHex(compact, nibbles);
    ret := nibbles[..];
    ghost var ns := Unpack(compact);
    assert ret == ns + [16] && ret[0] == ns[0] == compact[0] / 16;
    if ret[0] < 2 {
      ret := ret[..|ret| - 1];
      assert ret == ns;
    }
    var chop := 2 - ret[0] % 2;
    assert (ns + [16])[chop..] == ns[chop..] + [16];
    ret := ret[chop..];
  }

  /** `hex_to_keybytes`; an odd number of nibbles is the panic, reported as false. */
  method HexToKeybytes(hex: Path, out: array<Byte>) returns (ok: bool)
    requires HexPath(hex) && |Body(hex)| / 2 <= out.Length
    modifies out
    ensures ok <==> |Body(hex)| % 2 == 0
    ensures ok ==> out[..|Body(hex)| / 2] == Pack(Body(hex))
    ensures !ok ==> out[..] == old(out[..])
  {
    var input := Body(hex);
    if |input| % 2 != 0 { return false; }
    DecodeNibbles(input, out, 0);
    return true;
  }
}
