/** `vm/jump_table.go`, `vm/memory_table.go`, `vm/gas_table.go`, `vm/gas.go`: the instruction table. */
module EvmOps {
  import opened BigEndian
  import opened EvmMemory

  type Address = nat

  const CALLS: nat := 700
  const CALL_VALUE_TRANSFER: nat := 9000
  const CALL_NEW_ACCOUNT: nat := 25000
  const CALL_STIPEND: nat := 2300
  const STACK_LIMIT: nat := 1024

  datatype Log = Log(address: Address, topics: seq<nat>, data: seq<byte>)

  /** The state an execution works on. */
  datatype World = World(
    accounts: set<Address>,
    balances: map<Address, nat>,
    nonces: map<Address, nat>,
    codes: map<Address, seq<byte>>,
    storage: map<(Address, nat), nat>,
    logs: seq<Log>)

  /** Balances, nonces, codes, storage and logs agree. */
  predicate Same(w: World, w': World) {
    w.balances == w'.balances && w.nonces == w'.nonces && w.codes == w'.codes && w.storage == w'.storage &&
    w.logs == w'.logs
  }

  function Lookup<K>(m: map<K, nat>, k: K): nat {
    if k in m then m[k] else 0
  }

  function CodeAt(w: World, a: Address): seq<byte> {
    if a in w.codes then w.codes[a] else []
  }

  predicate IsEmpty(w: World, a: Address) {
    Lookup(w.balances, a) == 0 && Lookup(w.nonces, a) == 0 && CodeAt(w, a) == []
  }

  /** Moves an amount between accounts; an amount of zero moves nothing. */
  function Transfer(w: World, from: Address, to: Address, amount: nat): World
    requires amount <= Lookup(w.balances, from)
  {
    if amount == 0 then w else
      var taken := w.balances[from := Lookup(w.balances, from) - amount];
      w.(balances := taken[to := Lookup(taken, to) + amount])
  }

  // ---- The table ----

  datatype Kind =
    | Stop | Plain(gas: nat) | Exp | Sha3 | Copy | ExtCopy | MLoad | MStore | MStore8 | SStore
    | Jump | JumpI | Push(size: nat) | Dup(n: nat) | Swap(n: nat) | LogN(topics: nat)
    | Create | Create2 | Call | CallCode | DelegateCall | StaticCall | Return | Revert | SelfDestruct

  /** What an instruction is, how many stack items it takes and how many it leaves. */
  datatype Operation = Operation(kind: Kind, pops: nat, pushes: nat)

  function Table(op: byte): Option<Operation> {
    if op == 0x00 then Some(Operation(Stop, 0, 0))
    else if op in {0x01, 0x03} then Some(Operation(Plain(3), 2, 1))
    else if op in {0x02, 0x04, 0x05, 0x06, 0x07, 0x0b} then Some(Operation(Plain(5), 2, 1))
    else if op in {0x08, 0x09} then Some(Operation(Plain(8), 3, 1))
    else if op == 0x0a then Some(Operation(Exp, 2, 1))
    else if 0x10 <= op <= 0x1d then Some(Operation(Plain(3), if op in {0x15, 0x19} then 1 else 2, 1))
    else if op == 0x20 then Some(Operation(Sha3, 2, 1))
    else if 0x30 <= op < 0x40 then ClosureOp(op)
    else if op == 0x40 then Some(Operation(Plain(20), 1, 1))
    else if op in {0x41, 0x42, 0x43, 0x45} then Some(Operation(Plain(2), 0, 1))
    else if 0x50 <= op < 0x60 then StorageOp(op)
    else if 0x60 <= op < 0x80 then Some(Operation(Push(op - 0x5f), 0, 1))
    else if 0x80 <= op < 0x90 then Some(Operation(Dup(op - 0x7f), op - 0x7f, op - 0x7f + 1))
    else if 0x90 <= op < 0xa0 then Some(Operation(Swap(op - 0x8f), op - 0x8f + 1, op - 0x8f + 1))
    else if 0xa0 <= op <= 0xa4 then Some(Operation(LogN(op - 0xa0), op - 0xa0 + 2, 0))
    else SystemOp(op)
  }

  function ClosureOp(op: byte): Option<Operation>
    requires 0x30 <= op < 0x40
  {
    if op in {0x31, 0x3f} then Some(Operation(Plain(400), 1, 1))
    else if op == 0x35 then Some(Operation(Plain(3), 1, 1))
    else if op == 0x3b then Some(Operation(Plain(700), 1, 1))
    else if op in {0x37, 0x39, 0x3e} then Some(Operation(Copy, 3, 0))
    else if op == 0x3c then Some(Operation(ExtCopy, 4, 0))
    else Some(Operation(Plain(2), 0, 1))
  }

  function StorageOp(op: byte): Option<Operation>
    requires 0x50 <= op < 0x60
  {
    if op == 0x50 then Some(Operation(Plain(2), 1, 0))
    else if op == 0x51 then Some(Operation(MLoad, 1, 1))
    else if op == 0x52 then Some(Operation(MStore, 2, 0))
    else if op == 0x53 then Some(Operation(MStore8, 2, 0))
    else if op == 0x54 then Some(Operation(Plain(200), 1, 1))
    else if op == 0x55 then Some(Operation(SStore, 2, 0))
    else if op == 0x56 then Some(Operation(Jump, 1, 0))
    else if op == 0x57 then Some(Operation(JumpI, 2, 0))
    else if op in {0x58, 0x59, 0x5a} then Some(Operation(Plain(2), 0, 1))
    else if op == 0x5b then Some(Operation(Plain(1), 0, 0))
    else None
  }

  function SystemOp(op: byte): Option<Operation> {
    if op == 0xf0 then Some(Operation(Create, 3, 1))
    else if op == 0xf1 then Some(Operation(Call, 7, 1))
    else if op == 0xf2 then Some(Operation(CallCode, 7, 1))
    else if op == 0xf3 then Some(Operation(Return, 2, 0))
    else if op == 0xf4 then Some(Operation(DelegateCall, 6, 1))
    else if op == 0xf5 then Some(Operation(Create2, 4, 1))
    else if op == 0xfa then Some(Operation(StaticCall, 6, 1))
    else if op == 0xfd then Some(Operation(Revert, 2, 0))
    else if op == 0xff then Some(Operation(SelfDestruct, 1, 0))
    else None
  }

  predicate Writes(k: Kind) {
    k.SStore? || k.LogN? || k.Create? || k.Create2? || k.SelfDestruct?
  }

  predicate Halts(k: Kind) {
    k.Stop? || k.Return? || k.Revert? || k.SelfDestruct?
  }

  predicate IsCall(k: Kind) {
    k.Call? || k.CallCode? || k.DelegateCall? || k.StaticCall?
  }

  predicate PassesValue(k: Kind) {
    k.Call? || k.CallCode?
  }

  /** The stack fits the instruction, before and after. */
  predicate StackFits(o: Operation, stack: seq<nat>) {
    o.pops <= |stack| && |stack| + o.pushes - o.pops <= STACK_LIMIT
  }

  /** The n-th item from the top. */
  function Back(stack: seq<nat>, n: nat): nat
    requires n < |stack|
  {
    stack[|stack| - 1 - n]
  }

  // ---- Memory ----

  function Span(offset: nat, size: nat): nat {
    if size == 0 then 0 else offset + size
  }

  function Max(x: nat, y: nat): nat {
    if x < y then y else x
  }

  /** Where an instruction's arguments for a callee start on the stack. */
  function ArgsAt(k: Kind): nat {
    if PassesValue(k) then 3 else 2
  }

  /** The memory an instruction touches, as a size. */
  function MemNeed(o: Operation, stack: seq<nat>): nat
    requires StackFits(o, stack) && TableShape(o)
  {
    match o.kind
    case Sha3 | Return | Revert | LogN(_) => Span(Back(stack, 0), Back(stack, 1))
    case Copy => Span(Back(stack, 0), Back(stack, 2))
    case ExtCopy => Span(Back(stack, 1), Back(stack, 3))
    case MLoad | MStore => Span(Back(stack, 0), 32)
    case MStore8 => Span(Back(stack, 0), 1)
    case Create | Create2 => Span(Back(stack, 1), Back(stack, 2))
    case Call | CallCode => Max(Span(Back(stack, 5), Back(stack, 6)), Span(Back(stack, 3), Back(stack, 4)))
    case DelegateCall | StaticCall => Max(Span(Back(stack, 4), Back(stack, 5)), Span(Back(stack, 2), Back(stack, 3)))
    case _ => 0
  }

  /** The stack items each kind of instruction takes at least. */
  predicate TableShape(o: Operation) {
    match o.kind
    case Call | CallCode => o.pops == 7 && o.pushes == 1
    case DelegateCall | StaticCall => o.pops == 6 && o.pushes == 1
    case Create => o.pops == 3 && o.pushes == 1
    case Create2 | ExtCopy => o.pops == 4 && o.pushes <= 1
    case Copy => o.pops == 3 && o.pushes == 0
    case LogN(n) => o.pops == n + 2 && o.pushes == 0
    case Sha3 | Exp => o.pops == 2 && o.pushes == 1
    case Return | Revert | MStore | MStore8 | SStore | JumpI => o.pops == 2 && o.pushes == 0
    case MLoad => o.pops == 1 && o.pushes == 1
    case Jump | SelfDestruct => o.pops == 1 && o.pushes == 0
    case Push(n) => o.pops == 0 && o.pushes == 1 && 1 <= n <= 32
    case Dup(n) => o.pops == n && o.pushes == n + 1 && 1 <= n
    case Swap(n) => o.pops == n + 1 && o.pushes == n + 1 && 1 <= n
    case Stop => o.pops == 0 && o.pushes == 0
    case Plain(g) => o.pushes <= 1 && g >= 1
  }

  lemma TableShaped(op: byte)
    ensures Table(op).Some? ==> TableShape(Table(op).value)
    ensures Table(op).Some? && Table(op).value.kind.Push? <==> 0x60 <= op <= 0x7f
    ensures 0x60 <= op <= 0x7f ==> Table(op).value.kind == Push(op - 0x5f)
  {
    hide ClosureOp, StorageOp, SystemOp;
    SystemShaped(op);
    if 0x30 <= op < 0x40 {
      ClosureShaped(op);
    } else if 0x50 <= op < 0x60 {
      StorageShaped(op);
    }
  }

  lemma ClosureShaped(op: byte)
    requires 0x30 <= op < 0x40
    ensures ClosureOp(op).Some? ==> TableShape(ClosureOp(op).value) && !ClosureOp(op).value.kind.Push?
  {
  }

  lemma StorageShaped(op: byte)
    requires 0x50 <= op < 0x60
    ensures StorageOp(op).Some? ==> TableShape(StorageOp(op).value) && !StorageOp(op).value.kind.Push?
  {
  }

  lemma SystemShaped(op: byte)
    ensures SystemOp(op).Some? ==> TableShape(SystemOp(op).value) && !SystemOp(op).value.kind.Push?
  {
  }

  // ---- Gas ----

  function ByteLen(x: nat): nat {
    if x == 0 then 0 else 1 + ByteLen(x / 256)
  }

  /** The gas of an instruction apart from memory, and apart from what a call passes on; none where it
      needs a size beyond 64 bits. */
  function OwnGas(o: Operation, stack: seq<nat>, w: World, self: Address): Option<nat>
    requires StackFits(o, stack) && TableShape(o)
  {
    if IsCall(o.kind) then Some(CallOwnGas(o, stack, w))
    else if o.kind.Create? then Some(32000)
    else if o.kind.Create2? then WordGas(32000, 6, Back(stack, 2))
    else PlainOwnGas(o, stack, w, self)
  }

  function CallOwnGas(o: Operation, stack: seq<nat>, w: World): (g: nat)
    requires StackFits(o, stack) && TableShape(o) && IsCall(o.kind)
    ensures g >= CallFloor(o.kind, if PassesValue(o.kind) then Back(stack, 2) else 0)
  {
    if PassesValue(o.kind) then ValueCallGas(o.kind, w, Back(stack, 1), Back(stack, 2)) else CALLS
  }

  function PlainOwnGas(o: Operation, stack: seq<nat>, w: World, self: Address): Option<nat>
    requires StackFits(o, stack) && TableShape(o)
  {
    match o.kind
    case Plain(gas) => Some(gas)
    case Exp => Some(10 + 50 * ByteLen(Back(stack, 1)))
    case Sha3 => WordGas(30, 6, Back(stack, 1))
    case Copy => WordGas(3, 3, Back(stack, 2))
    case ExtCopy => WordGas(700, 3, Back(stack, 3))
    case MLoad | MStore | MStore8 | Push(_) | Dup(_) | Swap(_) => Some(3)
    case SStore => Some(StoreGas(Lookup(w.storage, (self, Back(stack, 0))), Back(stack, 1)))
    case Jump => Some(8)
    case JumpI => Some(10)
    case LogN(n) => if Back(stack, 1) >= TWO_64 then None else Some(375 + 375 * n + 8 * Back(stack, 1))
    case SelfDestruct => Some(DestructGas(w, self, Back(stack, 0)))
    case _ => Some(0)
  }

  /** Setting a clear slot costs more than changing or clearing one. */
  function StoreGas(current: nat, value: nat): (g: nat)
    ensures g >= 5000
  {
    if current == 0 && value != 0 then 20000 else 5000
  }

  function DestructGas(w: World, self: Address, heir: Address): nat {
    5000 + if IsEmpty(w, heir) && Lookup(w.balances, self) != 0 then 25000 else 0
  }

  function ValueCallGas(k: Kind, w: World, to: Address, value: nat): (g: nat)
    ensures g >= CALLS + if value == 0 then 0 else CALL_VALUE_TRANSFER
  {
    CALLS + if value == 0 then 0
            else CALL_VALUE_TRANSFER + if k.Call? && IsEmpty(w, to) then CALL_NEW_ACCOUNT else 0
  }

  function WordGas(base: nat, perWord: nat, size: nat): (r: Option<nat>)
    ensures r.Some? ==> base <= r.value
  {
    if size >= TWO_64 then None else Some(base + perWord * ToWordSize(size))
  }

  /** What a call costs its caller at least, beyond what it hands over. */
  function CallFloor(k: Kind, value: nat): nat {
    CALLS + if PassesValue(k) && value != 0 then CALL_VALUE_TRANSFER else 0
  }

  lemma OwnGasFloor(o: Operation, stack: seq<nat>, w: World, self: Address)
    requires StackFits(o, stack) && TableShape(o)
    ensures var g := OwnGas(o, stack, w, self);
            (IsCall(o.kind) ==> g.Some?) && (g.Some? ==> g.value >= Floor(o, stack))
  {
    hide OwnGas, Floor, TableShape;
    if IsCall(o.kind) || o.kind.Create? || o.kind.Create2? {
      FloorCall(o, stack, w, self);
    } else {
      FloorPlain(o, stack, w, self);
    }
  }

  lemma FloorCall(o: Operation, stack: seq<nat>, w: World, self: Address)
    requires StackFits(o, stack) && TableShape(o) && (IsCall(o.kind) || o.kind.Create? || o.kind.Create2?)
    ensures var g := OwnGas(o, stack, w, self);
            (IsCall(o.kind) ==> g.Some?) && (g.Some? ==> g.value >= Floor(o, stack))
  {
    hide Lookup, WordGas, CallOwnGas, TableShape, StackFits;
  }

  lemma FloorPlain(o: Operation, stack: seq<nat>, w: World, self: Address)
    requires StackFits(o, stack) && TableShape(o) && !IsCall(o.kind) && !o.kind.Create? && !o.kind.Create2?
    ensures var g := OwnGas(o, stack, w, self); g.Some? ==> g.value >= Floor(o, stack)
  {
    hide ByteLen, Lookup, WordGas, StoreGas, DestructGas, CallOwnGas;
  }

  /** The least an instruction costs; only a jump destination costs one unit. */
  function Floor(o: Operation, stack: seq<nat>): nat
    requires StackFits(o, stack) && TableShape(o)
  {
    match o.kind
    case Stop | Return | Revert | SelfDestruct => 0
    case Call | CallCode => CallFloor(o.kind, Back(stack, 2))
    case DelegateCall | StaticCall => CallFloor(o.kind, 0)
    case Create | Create2 => 32000
    case _ => Price(o)
  }

  /** The least an instruction that goes on takes out of the gas, all it calls included. */
  function Price(o: Operation): nat {
    if o.kind == Plain(1) then 1 else 2
  }

  lemma OnlyJumpdest(op: byte)
    ensures Table(op).Some? && Table(op).value.kind == Plain(1) <==> op == 0x5b
    ensures Table(0x5b) == Some(Operation(Plain(1), 0, 0))
  {
  }

  /** The gas handed to a callee: what was asked for, but at most all but a 64th of what is left. */
  function CallGas(availableGas: nat, base: nat, callCost: nat): nat
    requires availableGas < TWO_64 && base < TWO_64
  {
    var available := (availableGas - base) % TWO_64;
    var gas := available - available / 64;
    if callCost >= TWO_64 || gas < callCost then gas else callCost
  }

  /** With the base cost covered, the caller keeps a 64th; without, the call is out of gas whatever the
      subtraction wraps to. */
  lemma CallGasLaw(availableGas: nat, base: nat, callCost: nat)
    requires availableGas < TWO_64 && base < TWO_64
    ensures base <= availableGas ==>
              var left := availableGas - base;
              var handed := CallGas(availableGas, base, callCost);
              handed <= callCost && handed <= left - left / 64 && left - handed >= left / 64 &&
              (handed == callCost || handed == left - left / 64)
    ensures base > availableGas ==> base + CallGas(availableGas, base, callCost) > availableGas
  {
    if base <= availableGas {
      assert (availableGas - base) % TWO_64 == availableGas - base;
    }
  }
}
