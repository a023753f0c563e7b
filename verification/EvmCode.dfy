/** `vm/analysis.go`, `vm/contract.go`: which bytes of a program are instructions, and jump targets. */
module EvmCode {
  import opened BigEndian

  type Code = seq<byte>

  const PUSH1: byte := 0x60
  const PUSH32: byte := 0x7f
  const JUMPDEST: byte := 0x5b

  predicate IsPush(op: byte) {
    PUSH1 <= op <= PUSH32
  }

  /** The length of an instruction with its immediate data. */
  function Length(op: byte): nat {
    if IsPush(op) then op - PUSH1 + 2 else 1
  }

  /** The instruction starts of the linear scan. */
  ghost predicate Scans(code: Code, from: nat, pos: nat)
    decreases |code| - from
  {
    from == pos || (from < |code| && from < pos && Scans(code, from + Length(code[from]), pos))
  }

  ghost predicate IsStart(code: Code, pos: nat) {
    Scans(code, 0, pos)
  }

  /** Where execution may stand: at an instruction, or past the end of the code. */
  ghost predicate Standing(code: Code, pc: nat) {
    pc >= |code| || IsStart(code, pc)
  }

  lemma {:induction false} ScansOn(code: Code, from: nat, pos: nat)
    requires Scans(code, from, pos) && pos < |code|
    ensures Scans(code, from, pos + Length(code[pos]))
    ensures forall p | pos < p < pos + Length(code[pos]) :: !Scans(code, from, p)
    decreases |code| - from
  {
    if from < pos {
      ScansOn(code, from + Length(code[from]), pos);
    }
  }

  /** Going on by one instruction keeps execution at an instruction. */
  lemma NextStart(code: Code, pc: nat)
    requires IsStart(code, pc) && pc < |code|
    ensures IsStart(code, pc + Length(code[pc]))
    ensures forall p | pc < p < pc + Length(code[pc]) :: !IsStart(code, p)
  {
    ScansOn(code, 0, pc);
  }

  // ---- Bit vectors ----

  function Bit(b: bv8, k: nat): bool
    requires k < 8
  {
    (b & (0x80 >> k)) != 0
  }

  lemma SetBit(b: bv8, k: nat, j: nat)
    requires k < 8 && j < 8
    ensures Bit(b | (0x80 >> k), j) == (Bit(b, j) || j == k)
  {
  }

  lemma SetBits(b: bv8, k: nat, j: nat)
    requires k < 8 && j < 8
    ensures Bit(b | (0xFF >> k), j) == (Bit(b, j) || j >= k)
    ensures Bit(b | !(0xFF >> k), j) == (Bit(b, j) || j < k)
  {
  }

  /** The bit of a position, numbered from the most significant bit of the first byte. */
  predicate BitAt(bits: seq<bv8>, pos: nat)
    requires pos / 8 < |bits|
  {
    Bit(bits[pos / 8], pos % 8)
  }

  method Set(bits: array<bv8>, pos: nat)
    requires pos / 8 < bits.Length
    modifies bits
    ensures forall p: nat | p / 8 < bits.Length :: BitAt(bits[..], p) == (BitAt(old(bits[..]), p) || p == pos)
  {
    ghost var before := bits[..];
    bits[pos / 8] := bits[pos / 8] | (0x80 >> (pos % 8));
    forall p: nat | p / 8 < bits.Length ensures BitAt(bits[..], p) == (BitAt(before, p) || p == pos) {
      if p / 8 == pos / 8 {
        SetBit(before[pos / 8], pos % 8, p % 8);
      }
    }
  }

  method Set8(bits: array<bv8>, pos: nat)
    requires pos / 8 + 1 < bits.Length
    modifies bits
    ensures forall p: nat | p / 8 < bits.Length :: BitAt(bits[..], p) == (BitAt(old(bits[..]), p) || pos <= p < pos + 8)
  {
    ghost var before := bits[..];
    var i, k := pos / 8, pos % 8;
    bits[i] := bits[i] | (0xFF >> k);
    bits[i + 1] := bits[i + 1] | !(0xFF >> k);
    forall p: nat | p / 8 < bits.Length
      ensures BitAt(bits[..], p) == (BitAt(before, p) || pos <= p < pos + 8)
    {
      if p / 8 == i || p / 8 == i + 1 {
        SetBits(before[p / 8], k, p % 8);
      }
    }
  }

  /** Clear bits are exactly the instruction starts. */
  ghost predicate Marks(bits: seq<bv8>, code: Code) {
    |bits| == |code| / 8 + 5 && forall p: nat | p < |code| :: !BitAt(bits, p) <==> IsStart(code, p)
  }

  /** Marks the data bytes of a program; no access leaves the bit vector. */
  method CodeBitmap(code: Code) returns (bits: array<bv8>)
    ensures fresh(bits) && Marks(bits[..], code)
  {
    bits := new bv8[|code| / 8 + 5](_ => 0);
    var pc := 0;
    while pc < |code|
      invariant Standing(code, pc) && pc <= |code| + 32
      invariant forall p: nat | p / 8 < bits.Length ::
                  BitAt(bits[..], p) == (p < pc && !IsStart(code, p))
    {
      hide IsStart, BitAt, Standing;
      var op := code[pc];
      NextStart(code, pc);
      pc := pc + 1;
      if IsPush(op) {
        pc := MarkData(bits, pc, op - PUSH1 + 1);
      }
    }
  }

  /** Marks the data of one push instruction, eight bits at a time. */
  method MarkData(bits: array<bv8>, pc: nat, count: nat) returns (end: nat)
    requires (pc + count) / 8 < bits.Length && count <= 32
    modifies bits
    ensures end == pc + count
    ensures forall p: nat | p / 8 < bits.Length :: BitAt(bits[..], p) == (BitAt(old(bits[..]), p) || pc <= p < pc + count)
  {
    ghost var before := bits[..];
    var numbits := count;
    end := pc;
    while numbits >= 8
      invariant end + numbits == pc + count && pc <= end
      invariant forall p: nat | p / 8 < bits.Length :: BitAt(bits[..], p) == (BitAt(before, p) || pc <= p < end)
    {
      Set8(bits, end);
      end := end + 8;
      numbits := numbits - 8;
    }
    while numbits > 0
      invariant end + numbits == pc + count && pc <= end
      invariant forall p: nat | p / 8 < bits.Length :: BitAt(bits[..], p) == (BitAt(before, p) || pc <= p < end)
    {
      Set(bits, end);
      end := end + 1;
      numbits := numbits - 1;
    }
  }

  // ---- Jump targets ----

  type Hash = seq<byte>

  /** Distinct programs have distinct hashes. */
  ghost predicate NoCollisions(hash: Code -> Hash) {
    forall c, c' | hash(c) == hash(c') :: c == c'
  }

  /** The analyses shared by a contract and the contracts it calls, by code hash. */
  class JumpCache {
    var entries: map<Hash, seq<bv8>>

    ghost predicate Valid(hash: Code -> Hash)
      reads this
    {
      forall code | hash(code) in entries :: Marks(entries[hash(code)], code)
    }

    constructor ()
      ensures entries == map[]
    {
      entries := map[];
    }

    /** A jump may go exactly to a JUMPDEST that is an instruction. Programs without a known hash are
        analysed on their own. */
    method ValidJumpdest(code: Code, codeHash: Option<Hash>, hash: Code -> Hash, dest: nat) returns (ok: bool)
      requires Valid(hash) && NoCollisions(hash) && (codeHash.Some? ==> codeHash.value == hash(code))
      modifies this
      ensures Valid(hash)
      ensures ok <==> dest < TWO_62 && dest < |code| && code[dest] == JUMPDEST && IsStart(code, dest)
    {
      hide IsStart;
      if dest >= TWO_62 || dest >= |code| { return false; }
      if code[dest] != JUMPDEST { return false; }
      if codeHash.Some? {
        if codeHash.value !in entries {
          var analysis := CodeBitmap(code);
          entries := entries[codeHash.value := analysis[..]];
        }
        assert Marks(entries[hash(code)], code);
        return !BitAt(entries[codeHash.value], dest);
      }
      var analysis := CodeBitmap(code);
      return !BitAt(analysis[..], dest);
    }
  }

  const TWO_62: nat := 0x4000_0000_0000_0000
}
