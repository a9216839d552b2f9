/** Jump analysis of core/vm/analysis.go and the program counter of the run loop: the bit vector
    marks exactly the push data, and control never reaches it. */
module JumpAnalysis {
  import opened Wrappers
  import opened Rlp

  const PUSH1: Byte := 0x60
  const PUSH32: Byte := 0x7F
  const JUMP: Byte := 0x56
  const JUMPI: Byte := 0x57
  const JUMPDEST: Byte := 0x5B

  // ---------------------------------------------------------------------------------
  // Instructions (section 9.4.3 of the Yellow Paper)
  // ---------------------------------------------------------------------------------

  /** How many bytes of data follow an opcode. */
  function PushSize(op: Byte): (n: nat)
    ensures n <= 32
  {
    if PUSH1 <= op <= PUSH32 then op - PUSH1 + 1 else 0
  }

  /** N(i, w): where the next instruction starts. */
  function Next(code: Bytes, pc: nat): (n: nat)
    requires pc < |code|
    ensures n > pc
  {
    pc + 1 + PushSize(code[pc])
  }

  /** An instruction starts at k, going forward from the start `pc`; the last one may end beyond
      the code. */
  predicate StartFrom(code: Bytes, pc: nat, k: nat)
    decreases |code| - pc
  {
    k == pc || (pc < |code| && pc < k && StartFrom(code, Next(code, pc), k))
  }

  predicate Start(code: Bytes, k: nat)
  {
    StartFrom(code, 0, k)
  }

  /** Byte k is data of a push at or after the start `pc`, be it cut off by the end of the code. */
  predicate DataFrom(code: Bytes, pc: nat, k: nat)
    decreases |code| - pc
  {
    pc < |code| && (pc < k < Next(code, pc) || DataFrom(code, Next(code, pc), k))
  }

  /** Within the code a byte is either an opcode or data. */
  lemma {:induction false} StartOrData(code: Bytes, pc: nat, k: nat)
    requires pc <= k < |code|
    ensures StartFrom(code, pc, k) <==> !DataFrom(code, pc, k)
    decreases |code| - pc
  {
    if pc < k {
      if k < Next(code, pc) {
        NotBehind(code, Next(code, pc), k);
      } else {
        StartOrData(code, Next(code, pc), k);
      }
    } else {
      DataBehind(code, Next(code, pc), k);
    }
  }

  lemma NotBehind(code: Bytes, pc: nat, k: nat)
    requires k < pc
    ensures !StartFrom(code, pc, k)
  {
  }

  lemma {:induction false} DataBehind(code: Bytes, pc: nat, k: nat)
    requires k < pc
    ensures !DataFrom(code, pc, k)
    decreases |code| - pc
  {
    if pc < |code| { DataBehind(code, Next(code, pc), k); }
  }

  /** The instruction after a start is a start. */
  lemma {:induction false} NextIsStart(code: Bytes, pc: nat, k: nat)
    requires StartFrom(code, pc, k) && k < |code|
    ensures StartFrom(code, pc, Next(code, k))
    decreases |code| - pc
  {
    if k != pc { NextIsStart(code, Next(code, pc), k); }
  }

  // ---------------------------------------------------------------------------------
  // Bits
  // ---------------------------------------------------------------------------------

  function Mask(j: nat): (m: bv8)
    requires j < 8
  {
    (0x80 as bv8) >> j
  }

  /** Bit k of a bit vector, the first in the top bit of the first byte. */
  predicate Bit(bits: seq<bv8>, k: nat)
  {
    k / 8 < |bits| && bits[k / 8] & Mask(k % 8) != 0
  }

  lemma OrMask(x: bv8, s: nat, j: nat)
    requires s < 8 && j < 8
    ensures (x | Mask(s)) & Mask(j) != 0 <==> x & Mask(j) != 0 || j == s
  {
    MaskValue(s);
    MaskValue(j);
  }

  lemma MaskValue(j: nat)
    requires j < 8
    ensures Mask(j) == if j == 0 then 0x80 else if j == 1 then 0x40 else if j == 2 then 0x20 else if j == 3 then 0x10
                       else if j == 4 then 8 else if j == 5 then 4 else if j == 6 then 2 else 1
  {
  }

  lemma TailValue(s: nat)
    requires s < 8
    ensures (0xFF as bv8) >> s == if s == 0 then 0xFF else if s == 1 then 0x7F else if s == 2 then 0x3F else if s == 3 then 0x1F
                                 else if s == 4 then 0xF else if s == 5 then 7 else if s == 6 then 3 else 1
  {
  }

  /** The bits from s on, and those before s. */
  lemma OrTail(x: bv8, s: nat, j: nat)
    requires s < 8 && j < 8
    ensures (x | ((0xFF as bv8) >> s)) & Mask(j) != 0 <==> x & Mask(j) != 0 || j >= s
    ensures (x | !((0xFF as bv8) >> s)) & Mask(j) != 0 <==> x & Mask(j) != 0 || j < s
  {
    MaskValue(j);
    TailValue(s);
  }

  /** `set`. */
  method SetBit(bits: array<bv8>, pos: nat)
    requires pos / 8 < bits.Length
    modifies bits
    ensures forall k: nat :: Bit(bits[..], k) <==> Bit(old(bits[..]), k) || k == pos
  {
    ghost var was := bits[..];
    bits[pos / 8] := bits[pos / 8] | ((0x80 as bv8) >> (pos % 8));
    forall k: nat ensures Bit(bits[..], k) <==> Bit(was, k) || k == pos {
      if k / 8 == pos / 8 { OrMask(was[pos / 8], pos % 8, k % 8); }
    }
  }

  /** `set8`. */
  method SetEight(bits: array<bv8>, pos: nat)
    requires pos / 8 + 1 < bits.Length
    modifies bits
    ensures forall k: nat :: Bit(bits[..], k) <==> Bit(old(bits[..]), k) || pos <= k < pos + 8
  {
    ghost var was := bits[..];
    bits[pos / 8] := bits[pos / 8] | ((0xFF as bv8) >> (pos % 8));
    bits[pos / 8 + 1] := bits[pos / 8 + 1] | !((0xFF as bv8) >> (pos % 8));
    forall k: nat ensures Bit(bits[..], k) <==> Bit(was, k) || pos <= k < pos + 8 {
      if k / 8 == pos / 8 {
        OrTail(was[pos / 8], pos % 8, k % 8);
      } else if k / 8 == pos / 8 + 1 {
        OrTail(was[pos / 8 + 1], pos % 8, k % 8);
      }
    }
  }

  /** `codeBitmap`: a bit is set exactly for push data, for every code. */
  method CodeBitmap(code: Bytes) returns (bits: array<bv8>)
    ensures fresh(bits) && bits.Length == |code| / 8 + 5
    ensures forall k: nat :: Bit(bits[..], k) <==> DataFrom(code, 0, k)
  {
    bits := new bv8[|code| / 8 + 1 + 4](_ => 0);
    var pc: nat := 0;
    forall k: nat ensures !Bit(bits[..], k) {
    }
    while pc < |code|
      invariant forall k: nat :: DataFrom(code, 0, k) <==> Bit(bits[..], k) || DataFrom(code, pc, k)
      decreases |code| - pc
    {
      var op := code[pc];
      ghost var start, was := pc, bits[..];
      assert forall k: nat :: DataFrom(code, start, k) <==> start < k < Next(code, start) || DataFrom(code, Next(code, start), k);
      if PUSH1 <= op <= PUSH32 {
        var numbits := op - PUSH1 + 1;
        pc := pc + 1;
        while numbits >= 8
          invariant pc + numbits == Next(code, start) && start < pc <= start + 33 && 0 <= numbits <= 32
          invariant forall k: nat :: Bit(bits[..], k) <==> Bit(was, k) || start < k < pc
        {
          SetEight(bits, pc);
          pc := pc + 8;
          numbits := numbits - 8;
        }
        while numbits > 0
          invariant pc + numbits == Next(code, start) && start < pc <= start + 33 && 0 <= numbits <= 32
          invariant forall k: nat :: Bit(bits[..], k) <==> Bit(was, k) || start < k < pc
        {
          SetBit(bits, pc);
          pc := pc + 1;
          numbits := numbits - 1;
        }
      } else {
        pc := pc + 1;
      }
      assert pc == Next(code, start);
      forall k: nat ensures DataFrom(code, 0, k) <==> Bit(bits[..], k) || DataFrom(code, pc, k) {
        assert DataFrom(code, 0, k) <==> Bit(was, k) || DataFrom(code, start, k);
        assert Bit(bits[..], k) <==> Bit(was, k) || start < k < pc;
      }
    }
  }

  // ---------------------------------------------------------------------------------
  // Jumps
  // ---------------------------------------------------------------------------------

  type CodeHash = Bytes

  /** `CodeAndHash`; code being deployed has no hash. */
  datatype Code = Code(bytes: Bytes, hash: Option<CodeHash>)

  /** `GetOp`. */
  function GetOp(code: Bytes, n: nat): (op: Byte)
  {
    if n < |code| then code[n] else 0
  }

  /** Where a jump may lead. */
  predicate Destination(code: Bytes, n: nat)
  {
    n < |code| && code[n] == JUMPDEST && Start(code, n)
  }

  ghost predicate IsAnalysis(bits: seq<bv8>, code: Bytes)
  {
    |bits| == |code| / 8 + 5 && forall k: nat :: Bit(bits, k) <==> DataFrom(code, 0, k)
  }

  /** `codeSegment` on a JUMPDEST byte. */
  lemma SegmentBit(bits: seq<bv8>, code: Bytes, n: nat)
    requires IsAnalysis(bits, code) && n < |code| && code[n] == JUMPDEST
    ensures n / 8 < |bits| && (bits[n / 8] & ((0x80 as bv8) >> (n % 8)) == 0 <==> Destination(code, n))
  {
    StartOrData(code, 0, n);
    assert Bit(bits, n) <==> DataFrom(code, 0, n);
  }

  /** The analyses an `EVM` keeps by code hash.  Two codes in use have different hashes. */
  class JumpdestCache {
    var jumpdests: map<CodeHash, seq<bv8>>
    ghost const preimage: CodeHash -> Bytes

    ghost predicate Valid()
      reads this
    {
      forall h :: h in jumpdests ==> IsAnalysis(jumpdests[h], preimage(h))
    }

    constructor (ghost pre: CodeHash -> Bytes)
      ensures Valid() && preimage == pre
    {
      preimage := pre;
      jumpdests := map[];
    }

    /** `analyze_jumpdests`. */
    method AnalyzeJumpdests(code: Code) returns (analysis: seq<bv8>, cached: bool)
      requires Valid() && (code.hash.Some? ==> preimage(code.hash.value) == code.bytes)
      modifies this
      ensures Valid() && IsAnalysis(analysis, code.bytes)
    {
      cached := code.hash.Some?;
      if cached && code.hash.value in jumpdests {
        return jumpdests[code.hash.value], true;
      }
      var bits := CodeBitmap(code.bytes);
      analysis := bits[..];
      if cached {
        jumpdests := jumpdests[code.hash.value := analysis];
      }
    }
  }

  /** The part of `Contract` that jumps use. */
  class Contract {
    const code: Code
    var analysis: Option<seq<bv8>>

    ghost predicate Valid()
      reads this
    {
      analysis.Some? ==> IsAnalysis(analysis.value, code.bytes)
    }

    constructor (c: Code)
      ensures Valid() && code == c
    {
      code, analysis := c, None;
    }

    /** `ValidJumpdest`; `dest` is a 256-bit word. */
    method ValidJumpdest(evm: JumpdestCache, dest: nat) returns (ok: bool)
      requires Valid() && evm.Valid() && |code.bytes| < TWO_TO_THE_64
      requires code.hash.Some? ==> evm.preimage(code.hash.value) == code.bytes
      modifies this, evm
      ensures Valid() && evm.Valid()
      ensures ok <==> Destination(code.bytes, dest)
    {
      if dest >= TWO_TO_THE_64 || GetOp(code.bytes, dest) != JUMPDEST { return false; }
      var bits: seq<bv8>;
      if analysis.Some? {
        bits := analysis.value;
      } else {
        var cached;
        bits, cached := evm.AnalyzeJumpdests(code);
        if !cached { analysis := Some(bits); }
      }
      hide IsAnalysis, Start, Destination;
      SegmentBit(bits, code.bytes, dest);
      ok := bits[dest / 8] & ((0x80 as bv8) >> (dest % 8)) == 0;
    }

    /** How an instruction at pc that neither halts nor fails moves the counter.  A jump takes
        its destination, and JUMPI also its condition, from the stack; None is the error of an
        invalid destination. */
    method Advance(evm: JumpdestCache, pc: nat, dest: nat, cond: bool) returns (r: Option<nat>)
      requires Valid() && evm.Valid() && pc < |code.bytes| < TWO_TO_THE_64
      requires code.hash.Some? ==> evm.preimage(code.hash.value) == code.bytes
      modifies this, evm
      ensures Valid() && evm.Valid()
      ensures r == Moved(code.bytes, pc, dest, cond)
    {
      var op := GetOp(code.bytes, pc);
      if op == JUMP || (op == JUMPI && cond) {
        var ok := ValidJumpdest(evm, dest);
        return if ok then Some(dest) else None;
      }
      if op == JUMPI { return Some(pc + 1); }
      var size := if PUSH1 <= op <= PUSH32 then op - PUSH1 + 1 else 0;
      return Some(pc + size + 1);
    }
  }

  /** The new counter. */
  function Moved(code: Bytes, pc: nat, dest: nat, cond: bool): (r: Option<nat>)
    requires pc < |code|
  {
    if code[pc] == JUMP || (code[pc] == JUMPI && cond) then (if Destination(code, dest) then Some(dest) else None)
    else Some(Next(code, pc))
  }

  /** A jump that is taken goes to its destination, which must be a JUMPDEST at an instruction
      start, or fails; JUMPI is not taken on a zero condition, and goes on behind itself. */
  lemma WhereJumpsGo(code: Bytes, pc: nat, dest: nat, cond: bool, n: nat)
    requires pc < |code|
    ensures code[pc] == JUMP || (code[pc] == JUMPI && cond) ==>
              (Moved(code, pc, dest, cond) == Some(n) <==> n == dest && dest < |code| && code[dest] == JUMPDEST && Start(code, dest))
    ensures code[pc] == JUMPI && !cond ==> Moved(code, pc, dest, cond) == Some(pc + 1)
    ensures PUSH1 <= code[pc] <= PUSH32 ==> Moved(code, pc, dest, cond) == Some(pc + 2 + (code[pc] - PUSH1))
  {
  }

  /** The counter after any number of instructions; beyond the end the loop reads STOP and
      halts.  `stack` has the destinations and conditions that turn up. */
  function Run(code: Bytes, pc: nat, stack: seq<(nat, bool)>): (r: Option<nat>)
    decreases |stack|
  {
    if stack == [] || pc >= |code| then Some(pc)
    else
      match Moved(code, pc, stack[0].0, stack[0].1)
      case None => None
      case Some(n) => Run(code, n, stack[1..])
  }

  /** Control flow never reaches push data: every counter of a run is the start of an
      instruction or lies past the end, where the run halts. */
  lemma {:induction false} RunStaysOnStarts(code: Bytes, pc: nat, stack: seq<(nat, bool)>)
    requires Start(code, pc)
    ensures Run(code, pc, stack).Some? ==> Start(code, Run(code, pc, stack).value)
    ensures Run(code, pc, stack).Some? && Run(code, pc, stack).value < |code| ==> !DataFrom(code, 0, Run(code, pc, stack).value)
    decreases |stack|
  {
    if stack == [] || pc >= |code| {
      if pc < |code| { StartOrData(code, 0, pc); }
    } else {
      NextIsStart(code, 0, pc);
      var m := Moved(code, pc, stack[0].0, stack[0].1);
      if m.Some? { RunStaysOnStarts(code, m.value, stack[1..]); }
    }
  }
}
