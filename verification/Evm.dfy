/** `vm/evm.go`, `vm/interpreter.go`, `vm/instructions.go`: nested execution of contracts. */
module Evm {
  import opened BigEndian
  import opened EvmCode
  import opened EvmMemory
  import opened EvmOps
  import IntPool
  import Words

  const CALL_CREATE_DEPTH: nat := 1024
  const MAX_CODE_SIZE: nat := 24576
  const CREATE_DATA_GAS: nat := 200

  datatype Err =
    | Ok | Reverted | OutOfGas | InvalidOpcode | StackError | WriteProtection | InvalidJump | ReturnDataBounds
    | Depth | InsufficientBalance | AddressCollision | CodeStoreOutOfGas | CodeSizeExceeded | PrecompileFailed

  /** What an instruction without side effects can see. */
  datatype Snapshot = Snapshot(
    stack: seq<nat>, world: World, memory: seq<byte>, pc: nat, gas: nat, returnData: seq<byte>,
    input: seq<byte>, self: Address, caller: Address, value: nat)

  /** Hashing, addresses, precompiled contracts and the values of instructions that only look around. */
  datatype Context = Context(
    hash: Code -> Hash,
    word: (byte, Snapshot) -> nat,
    precompileGas: (Address, seq<byte>) -> Option<nat>,
    precompile: (Address, seq<byte>) -> Option<seq<byte>>,
    newAddress: (Address, nat) -> Address,
    newAddress2: (Address, nat, seq<byte>) -> Address)

  /** Bytes of data from an offset on, padded with zeros. */
  function GetData(data: seq<byte>, start: nat, size: nat): (r: seq<byte>)
    ensures |r| == size
  {
    seq(size, i requires 0 <= i < size => if start + i < |data| then data[start + i] else 0)
  }

  /** The state of one running contract. */
  class Frame {
    const code: Code
    const codeHash: Option<Hash>
    const self: Address
    const caller: Address
    const value: nat
    const input: seq<byte>
    const mem: Memory
    var gas: nat
    var pc: nat
    var stack: seq<nat>

    constructor (code: Code, codeHash: Option<Hash>, self: Address, caller: Address, value: nat, input: seq<byte>, gas: nat)
      ensures this.code == code && this.codeHash == codeHash && this.self == self && this.input == input
      ensures this.caller == caller && this.value == value
      ensures this.gas == gas && pc == 0 && stack == [] && fresh(mem) && mem.Valid() && mem.paid == 0
    {
      this.code, this.codeHash, this.self, this.input := code, codeHash, self, input;
      this.caller, this.value := caller, value;
      this.gas, pc, stack := gas, 0, [];
      mem := new Memory();
    }

    /** Execution stands at an instruction, the memory is paid for. */
    ghost predicate Ready(hash: Code -> Hash)
      reads this, mem
    {
      mem.Valid() && Standing(code, pc) && gas < TWO_64 && (codeHash.Some? ==> codeHash.value == hash(code))
    }

    method UseGas(amount: nat) returns (ok: bool)
      modifies `gas
      ensures ok <==> amount <= old(gas)
      ensures gas == if ok then old(gas) - amount else old(gas)
    {
      if gas < amount { return false; }
      gas := gas - amount;
      ok := true;
    }
  }

  datatype StepResult = Next | Done(err: Err, ret: seq<byte>)

  class Machine {
    const ctx: Context
    const cache: JumpCache
    var world: World
    var depth: nat
    var readOnly: bool
    var callGasTemp: nat
    var returnData: seq<byte>
    /** Instructions executed so far, at all depths. */
    ghost var steps: nat

    ghost predicate Valid()
      reads this, cache
    {
      NoCollisions(ctx.hash) && cache.Valid(ctx.hash)
    }

    constructor (ctx: Context, world: World)
      requires NoCollisions(ctx.hash)
      ensures Valid() && this.ctx == ctx && this.world == world && depth == 0 && !readOnly && steps == 0
      ensures fresh(cache)
    {
      this.ctx, this.world := ctx, world;
      depth, readOnly, callGasTemp, returnData, steps := 0, false, 0, [], 0;
      cache := new JumpCache();
    }

    /** Charges an instruction: memory, its own cost and what it hands to a callee. */
    method Charge(f: Frame, o: Operation) returns (ok: bool, ghost fee: nat)
      requires f.mem.Valid() && f.gas < TWO_64 && StackFits(o, f.stack) && TableShape(o)
      modifies `callGasTemp, f`gas, f.mem
      ensures f.gas <= old(f.gas)
      ensures ok ==> f.mem.Valid() && f.mem.paid == old(f.mem.paid) + fee && MemNeed(o, f.stack) <= |f.mem.store|
      ensures ok && !IsCall(o.kind) ==> f.gas + fee + Floor(o, f.stack) <= old(f.gas)
      ensures ok && IsCall(o.kind) ==> f.gas + callGasTemp + fee + Floor(o, f.stack) <= old(f.gas)
      ensures ok && IsCall(o.kind) ==> f.gas >= (f.gas + callGasTemp) / 64
      ensures o.kind.Stop? ==> ok && f.gas == old(f.gas)
      ensures o.kind.Plain? ==> (ok <==> o.kind.gas <= old(f.gas)) && (ok ==> f.gas == old(f.gas) - o.kind.gas)
      ensures ok ==> Settled(o, f.stack, world, f.self, old(f.gas), f.gas, fee, callGasTemp)
    {
      hide OwnGas, MemNeed, Floor, CallGas, TableShape, StackFits, Fee;
      fee := 0;
      CallHasGas(o, f.stack);
      StopFree(o, f.stack, world, f.self);
      var need := MemNeed(o, f.stack);
      if need >= TWO_64 { return false, fee; }
      var words := ToWordSize(need);
      if words * 32 >= TWO_64 { return false, fee; }
      var memoryGas := f.mem.GasCost(words * 32);
      if memoryGas == None { return false, fee; }
      OwnGasFloor(o, f.stack, world, f.self);
      var own := OwnGas(o, f.stack, world, f.self);
      if own == None { return false, fee; }
      var cost := memoryGas.value + own.value;
      if cost >= TWO_64 { return false, fee; }
      if IsCall(o.kind) {
        CallGasLaw(f.gas, cost, Back(f.stack, 0));
        callGasTemp := CallGas(f.gas, cost, Back(f.stack, 0));
        cost := cost + callGasTemp;
        if cost >= TWO_64 { return false, fee; }
      }
      ok := f.UseGas(cost);
      if !ok { return; }
      fee := memoryGas.value;
      assert ToWordSize(words * 32) == words;
      f.mem.Resize(words * 32, fee);
    }

    function Observe(f: Frame): Snapshot
      reads this, f, f.mem
    {
      Snapshot(f.stack, world, f.mem.store, f.pc, f.gas, returnData, f.input, f.self, f.caller, f.value)
    }

    /** Instructions that only touch the stack of their own frame. */
    method ExecStack(f: Frame, op: byte, o: Operation) returns (r: StepResult)
      requires f.Ready(ctx.hash) && f.pc < |f.code| && f.code[f.pc] == op && Table(op) == Some(o)
      requires StackShape(o, f.stack) && HasOperands(op, f.stack) && IsStackOnly(o.kind)
      modifies f`stack, f`pc
      ensures r == Next && f.Ready(ctx.hash) && f.pc == old(f.pc) + Length(op)
      ensures o.kind.Push? ==> f.stack == old(f.stack) + [Pushed(f.code, old(f.pc), o.kind.size)]
      ensures !o.kind.Push? ==> f.stack == StackAfter(o, old(f.stack), PlainValue(ctx, op, old(Observe(f))))
    {
      hide Table, Standing, IsStart, Pushed, Fee, PlainValue, Swapped, HasOperands, Memory.Valid;
      Advance(f.code, f.pc);
      TableShaped(op);
      if o.kind.Push? {
        f.stack := f.stack + [Pushed(f.code, f.pc, o.kind.size)];
        f.pc := f.pc + o.kind.size;
      } else if o.kind.Dup? {
        f.stack := f.stack + [Back(f.stack, o.kind.n - 1)];
      } else if o.kind.Swap? {
        SwapTop(f, o.kind.n);
      } else {
        var value := PlainValue(ctx, op, Observe(f));
        f.stack := f.stack[..|f.stack| - o.pops] + if o.pushes == 0 then [] else [value];
      }
      f.pc := f.pc + 1;
      r := Next;
    }

    method SwapTop(f: Frame, n: nat)
      requires 1 <= n < |f.stack|
      modifies f`stack
      ensures f.stack == Swapped(old(f.stack), n)
    {
      ghost var swapped := Swapped(f.stack, n);
      var top, i := |f.stack| - 1, |f.stack| - 1 - n;
      f.stack := f.stack[i := f.stack[top]][top := f.stack[i]];
      assert f.stack == swapped;
    }

    /** Instructions that read or write the memory of their own frame. */
    method ExecMemory(f: Frame, op: byte, o: Operation) returns (r: StepResult)
      requires f.Ready(ctx.hash) && f.pc < |f.code| && Length(f.code[f.pc]) == 1
      requires TableShape(o) && StackFits(o, f.stack) && MemNeed(o, f.stack) <= |f.mem.store| && UsesMemory(o.kind)
      modifies f`stack, f`pc, f.mem`store
      ensures f.mem.Valid() && (r.Next? ==> f.Ready(ctx.hash)) && (r.Done? ==> r.err == ReturnDataBounds)
      ensures r.Done? <==> op == 0x3e && o.kind.Copy? && Back(old(f.stack), 1) + Back(old(f.stack), 2) > |returnData|
      ensures r.Next? ==> f.stack == old(f.stack)[..|old(f.stack)| - o.pops] + Loaded(ctx, o, old(f.stack), old(f.mem.store))
      ensures r.Next? ==> f.mem.store == Stored(o, old(f.stack), old(f.mem.store), CopySource(f, op, o, old(f.stack)))
    {
      hide IsStart, Loaded, Stored, MemNeed, StackFits;
      Advance(f.code, f.pc);
      PopsFit(o, f.stack);
      var pushed := LoadMemory(f, o);
      var ok := StoreMemory(f, op, o);
      if !ok { return Done(ReturnDataBounds, []); }
      f.stack := f.stack[..|f.stack| - o.pops] + pushed;
      f.pc := f.pc + 1;
      r := Next;
    }

    /** The word an instruction reads from memory, if any. */
    method LoadMemory(f: Frame, o: Operation) returns (pushed: seq<nat>)
      requires TableShape(o) && StackFits(o, f.stack) && MemNeed(o, f.stack) <= |f.mem.store| && UsesMemory(o.kind)
      ensures pushed == Loaded(ctx, o, f.stack, f.mem.store)
    {
      if o.kind.MLoad? {
        var data := f.mem.Get(Back(f.stack, 0), 32);
        return [ToNat(data)];
      }
      if o.kind.Sha3? {
        var data := f.mem.Get(Back(f.stack, 0), Back(f.stack, 1));
        return [ToNat(ctx.hash(data))];
      }
      return [];
    }

    /** What an instruction writes to memory; false where it reads beyond the returned data. */
    method StoreMemory(f: Frame, op: byte, o: Operation) returns (ok: bool)
      requires f.mem.Valid() && UsesMemory(o.kind)
      requires TableShape(o) && StackFits(o, f.stack) && MemNeed(o, f.stack) <= |f.mem.store|
      modifies f.mem`store
      ensures f.mem.Valid()
      ensures !ok <==> op == 0x3e && o.kind.Copy? && Back(f.stack, 1) + Back(f.stack, 2) > |returnData|
      ensures ok ==> f.mem.store == Stored(o, f.stack, old(f.mem.store), CopySource(f, op, o, f.stack))
    {
      hide Fee;
      if o.kind.MStore? {
        f.mem.Set32(Back(f.stack, 0), Back(f.stack, 1));
      } else if o.kind.MStore8? {
        f.mem.Set(Back(f.stack, 0), 1, [Back(f.stack, 1) % 256]);
      } else if o.kind.ExtCopy? {
        var data := GetData(CodeAt(world, Back(f.stack, 0)), Back(f.stack, 2), Back(f.stack, 3));
        f.mem.Set(Back(f.stack, 1), Back(f.stack, 3), data);
      } else if o.kind.Copy? {
        var from, size := Back(f.stack, 1), Back(f.stack, 2);
        if op == 0x3e && from + size > |returnData| { return false; }
        var data := if op == 0x37 then f.input else if op == 0x39 then f.code else returnData;
        f.mem.Set(Back(f.stack, 0), size, GetData(data, from, size));
      }
      ok := true;
    }

    /** What a copying instruction copies from. */
    ghost function CopySource(f: Frame, op: byte, o: Operation, s: seq<nat>): seq<byte>
      requires |s| >= o.pops && TableShape(o)
      reads this
    {
      if o.kind.ExtCopy? then CodeAt(world, Back(s, 0))
      else if op == 0x37 then f.input else if op == 0x39 then f.code else returnData
    }

    /** A jump goes to a checked target, or the execution fails. */
    method ExecJump(f: Frame, o: Operation) returns (r: StepResult)
      requires Valid() && f.Ready(ctx.hash) && f.pc < |f.code| && Length(f.code[f.pc]) == 1
      requires (o.kind.Jump? || o.kind.JumpI?) && TableShape(o) && StackFits(o, f.stack)
      modifies f`stack, f`pc, cache
      ensures Valid() && (r.Next? ==> f.Ready(ctx.hash)) && (r.Done? ==> r.err == InvalidJump)
      ensures var pos, taken := Back(old(f.stack), 0), o.kind.Jump? || Back(old(f.stack), 1) != 0;
              (r.Done? <==> taken && !IsTarget(f.code, pos)) &&
              (r.Next? ==> f.pc == (if taken then pos else old(f.pc) + 1) && f.stack == old(f.stack)[..|old(f.stack)| - o.pops])
    {
      hide IsStart, NoCollisions;
      Advance(f.code, f.pc);
      var pos := Back(f.stack, 0);
      if o.kind.Jump? || Back(f.stack, 1) != 0 {
        var ok := cache.ValidJumpdest(f.code, f.codeHash, ctx.hash, pos);
        if !ok { return Done(InvalidJump, []); }
        f.pc := pos;
      } else {
        f.pc := f.pc + 1;
      }
      f.stack := f.stack[..|f.stack| - o.pops];
      r := Next;
    }

    /** Storage, logs and self-destruction. */
    method ExecWrite(f: Frame, o: Operation) returns (r: StepResult)
      requires f.Ready(ctx.hash) && f.pc < |f.code| && Length(f.code[f.pc]) == 1
      requires TableShape(o) && StackFits(o, f.stack) && MemNeed(o, f.stack) <= |f.mem.store|
      requires o.kind.SStore? || o.kind.LogN? || o.kind.SelfDestruct?
      modifies `world, f`stack, f`pc
      ensures r.Done? <==> o.kind.SelfDestruct?
      ensures r.Next? ==> f.Ready(ctx.hash) && f.stack == old(f.stack)[..|old(f.stack)| - o.pops]
      ensures r.Done? ==> r.err == Ok
      ensures var s := old(f.stack);
              var data := if o.kind.LogN? && Back(s, 1) > 0 then f.mem.store[Back(s, 0)..Back(s, 0) + Back(s, 1)] else [];
              world == WorldAfter(o, old(world), f.self, s, data)
    {
      hide IsStart;
      Advance(f.code, f.pc);
      if o.kind.SelfDestruct? {
        var heir, amount := Back(f.stack, 0), Lookup(world.balances, f.self);
        world := world.(balances := world.balances[heir := Lookup(world.balances, heir) + amount]);
        world := world.(balances := world.balances[f.self := 0]);
        return Done(Ok, []);
      }
      if o.kind.SStore? {
        world := world.(storage := world.storage[(f.self, Back(f.stack, 0)) := Back(f.stack, 1)]);
      } else {
        var data := f.mem.Get(Back(f.stack, 0), Back(f.stack, 1));
        world := world.(logs := world.logs + [Log(f.self, Topics(f.stack, o.kind.topics), data)]);
      }
      f.stack := f.stack[..|f.stack| - o.pops];
      f.pc := f.pc + 1;
      r := Next;
    }

    /** Hands gas to a callee and takes back what it leaves. */
    method ExecCall(f: Frame, o: Operation, ghost limit: nat) returns (r: StepResult)
      requires Valid() && f.Ready(ctx.hash) && f.pc < |f.code| && Length(f.code[f.pc]) == 1
      requires TableShape(o) && StackFits(o, f.stack) && MemNeed(o, f.stack) <= |f.mem.store| && IsCall(o.kind)
      requires f.gas + callGasTemp + Floor(o, f.stack) <= limit < TWO_64
      requires readOnly && o.kind.Call? ==> Back(f.stack, 2) == 0
      modifies this, cache, f`gas, f`pc, f`stack, f.mem`store
      ensures Valid() && depth == old(depth) && readOnly == old(readOnly)
      ensures old(readOnly) ==> Same(old(world), world)
      ensures r == Next && f.Ready(ctx.hash)
      ensures steps - old(steps) + f.gas + 2 <= limit && old(steps) <= steps
      decreases limit, 2
    {
      hide IsStart, NoCollisions, Same, Frame.Ready, Memory.Valid, JumpCache.Valid, MemNeed;
      CallSpans(o, f.stack);
      var at, to := ArgsAt(o.kind), Back(f.stack, 1);
      var value := if PassesValue(o.kind) then Back(f.stack, 2) else 0;
      var gas := callGasTemp;
      var args := f.mem.Get(Back(f.stack, at), Back(f.stack, at + 1));
      if value != 0 {
        gas := gas + CALL_STIPEND;
      }
      var err, ret, returnGas := Dispatch(f, o.kind, to, args, gas, value);
      FinishCall(f, o, err, ret, returnGas);
      r := Next;
    }

    method Dispatch(f: Frame, k: Kind, to: Address, args: seq<byte>, gas: nat, value: nat)
      returns (err: Err, ret: seq<byte>, left: nat)
      requires Valid() && gas < TWO_64 && IsCall(k) && (readOnly && k.Call? ==> value == 0)
      modifies this, cache
      ensures Valid() && depth == old(depth) && readOnly == old(readOnly)
      ensures old(readOnly) ==> Same(old(world), world)
      ensures left <= gas && steps - old(steps) + left <= gas + 1 && old(steps) <= steps
      decreases gas, 9
    {
      hide NoCollisions, Same, JumpCache.Valid;
      if k.Call? {
        err, ret, left := Call(f.self, to, args, gas, value);
      } else if k.CallCode? {
        err, ret, left := CallCode(f.self, to, args, gas, value);
      } else if k.DelegateCall? {
        err, ret, left := DelegateCall(f.self, f.caller, f.value, to, args, gas);
      } else {
        err, ret, left := StaticCall(f.self, to, args, gas);
      }
    }

    /** Puts the result of a call into the caller's frame. */
    method FinishCall(f: Frame, o: Operation, err: Err, ret: seq<byte>, returnGas: nat)
      requires f.Ready(ctx.hash) && f.pc < |f.code| && Length(f.code[f.pc]) == 1 && f.gas + returnGas < TWO_64
      requires TableShape(o) && StackFits(o, f.stack) && MemNeed(o, f.stack) <= |f.mem.store| && IsCall(o.kind)
      modifies `returnData, f`gas, f`pc, f`stack, f.mem`store
      ensures f.Ready(ctx.hash) && f.gas == old(f.gas) + returnGas && returnData == ret
      ensures f.stack == old(f.stack)[..|old(f.stack)| - o.pops] + [if err == Ok then 1 else 0]
      ensures var at, s := ArgsAt(o.kind), old(f.stack);
              f.mem.store == if err == Ok || err == Reverted
                             then Overwrite(old(f.mem.store), Back(s, at + 2), Back(s, at + 3), ret)
                             else old(f.mem.store)
    {
      hide IsStart, MemNeed;
      Advance(f.code, f.pc);
      CallSpans(o, f.stack);
      var at := ArgsAt(o.kind);
      if err == Ok || err == Reverted {
        f.mem.Set(Back(f.stack, at + 2), Back(f.stack, at + 3), ret);
      }
      f.gas := f.gas + returnGas;
      returnData := ret;
      f.stack := f.stack[..|f.stack| - o.pops] + [if err == Ok then 1 else 0];
      f.pc := f.pc + 1;
    }

    /** Runs a contract, or a precompiled one, and undoes its effects if it fails. */
    method RunContract(f: Frame, addr: Address, ro: bool, snapshot: World) returns (err: Err, ret: seq<byte>)
      requires Valid() && f.Ready(ctx.hash)
      requires Same(snapshot, world) || !(ro || readOnly)
      modifies this, cache, f, f.mem
      ensures Valid() && depth == old(depth) && readOnly == old(readOnly)
      ensures ro || old(readOnly) ==> Same(old(world), world)
      ensures f.gas <= old(f.gas) && steps - old(steps) + f.gas <= old(f.gas) + 1 && old(steps) <= steps
      ensures err != Ok ==> world == snapshot
      ensures err != Ok && err != Reverted ==> f.gas == 0
      ensures |f.code| == 0 && ctx.precompileGas(addr, f.input) == None ==>
                err == Ok && world == old(world) && f.gas == old(f.gas)
      ensures |f.code| == 0 || ctx.precompileGas(addr, f.input).Some? ==> steps == old(steps)
      ensures |f.code| > 0 && ctx.precompileGas(addr, f.input) == None && old(f.pc) == 0 && old(f.stack) == [] ==>
                (steps - old(steps) > old(f.gas) <==> Landing(f.code, old(f.gas)))
      decreases f.gas, 7
    {
      hide NoCollisions;
      var required := ctx.precompileGas(addr, f.input);
      if required.Some? {
        var paid := f.UseGas(required.value);
        var out := ctx.precompile(addr, f.input);
        if !paid {
          err, ret := OutOfGas, [];
        } else if out == None {
          err, ret := PrecompileFailed, [];
        } else {
          err, ret := Ok, out.value;
        }
      } else {
        err, ret := Run(f, ro);
      }
      if err != Ok {
        world := snapshot;
        if err != Reverted {
          f.gas := 0;
        }
      }
    }

    /** A call that gets as far as interpreting code. */
    ghost predicate Runs(w: World, depth: nat, caller: Address, addr: Address, input: seq<byte>, value: nat) {
      depth <= CALL_CREATE_DEPTH && value <= Lookup(w.balances, caller) && ctx.precompileGas(addr, input) == None &&
      (addr in w.accounts || value != 0) && CodeAt(w, addr) != []
    }

    /** A payment to an account that runs nothing. */
    ghost predicate Plainly(w: World, caller: Address, addr: Address, input: seq<byte>, value: nat) {
      value <= Lookup(w.balances, caller) && CodeAt(w, addr) == [] && ctx.precompileGas(addr, input) == None
    }

    /** Executes the code of an account in its own context, moving value to it. */
    method Call(caller: Address, addr: Address, input: seq<byte>, gas: nat, value: nat)
      returns (err: Err, ret: seq<byte>, left: nat)
      requires Valid() && gas < TWO_64 && (readOnly ==> value == 0)
      modifies this, cache
      ensures Valid() && depth == old(depth) && readOnly == old(readOnly)
      ensures old(readOnly) ==> Same(old(world), world)
      ensures left <= gas && steps - old(steps) + left <= gas + 1 && old(steps) <= steps
      ensures err != Ok ==> world == old(world)
      ensures Plainly(old(world), caller, addr, input, value) && old(depth) <= CALL_CREATE_DEPTH ==>
                err == Ok && left == gas && world.balances == Transfer(old(world), caller, addr, value).balances
      ensures steps - old(steps) > gas <==>
                Runs(old(world), old(depth), caller, addr, input, value) && Landing(CodeAt(old(world), addr), gas)
      decreases gas, 8
    {
      hide NoCollisions;
      if depth > CALL_CREATE_DEPTH { return Depth, [], gas; }
      if Lookup(world.balances, caller) < value { return InsufficientBalance, [], gas; }
      var snapshot := world;
      if addr !in world.accounts {
        if ctx.precompileGas(addr, input) == None && value == 0 { return Ok, [], gas; }
        world := world.(accounts := world.accounts + {addr});
      }
      world := Transfer(world, caller, addr, value);
      var code := CodeAt(world, addr);
      var f := new Frame(code, Some(ctx.hash(code)), addr, caller, value, input, gas);
      StartReady(code);
      err, ret := RunContract(f, addr, false, snapshot);
      left := f.gas;
    }

    /** Executes the code of another account in the caller's context. */
    method CallCode(caller: Address, addr: Address, input: seq<byte>, gas: nat, value: nat)
      returns (err: Err, ret: seq<byte>, left: nat)
      requires Valid() && gas < TWO_64
      modifies this, cache
      ensures Valid() && depth == old(depth) && readOnly == old(readOnly)
      ensures old(readOnly) ==> Same(old(world), world)
      ensures left <= gas && steps - old(steps) + left <= gas + 1 && old(steps) <= steps
      ensures err != Ok ==> world == old(world)
      decreases gas, 8
    {
      hide NoCollisions;
      if depth > CALL_CREATE_DEPTH { return Depth, [], gas; }
      if Lookup(world.balances, caller) < value { return InsufficientBalance, [], gas; }
      var code := CodeAt(world, addr);
      var f := new Frame(code, Some(ctx.hash(code)), caller, caller, value, input, gas);
      StartReady(code);
      err, ret := RunContract(f, addr, false, world);
      left := f.gas;
    }

    /** Executes the code of another account as the caller itself, with the caller's own caller and value. */
    method DelegateCall(caller: Address, sender: Address, value: nat, addr: Address, input: seq<byte>, gas: nat)
      returns (err: Err, ret: seq<byte>, left: nat)
      requires Valid() && gas < TWO_64
      modifies this, cache
      ensures Valid() && depth == old(depth) && readOnly == old(readOnly)
      ensures old(readOnly) ==> Same(old(world), world)
      ensures left <= gas && steps - old(steps) + left <= gas + 1 && old(steps) <= steps
      ensures err != Ok ==> world == old(world)
      decreases gas, 8
    {
      hide NoCollisions;
      if depth > CALL_CREATE_DEPTH { return Depth, [], gas; }
      var code := CodeAt(world, addr);
      var f := new Frame(code, Some(ctx.hash(code)), caller, sender, value, input, gas);
      StartReady(code);
      err, ret := RunContract(f, addr, false, world);
      left := f.gas;
    }

    /** Executes the code of an account without letting it change anything. */
    method StaticCall(caller: Address, addr: Address, input: seq<byte>, gas: nat)
      returns (err: Err, ret: seq<byte>, left: nat)
      requires Valid() && gas < TWO_64
      modifies this, cache
      ensures Valid() && depth == old(depth) && readOnly == old(readOnly)
      ensures Same(old(world), world)
      ensures left <= gas && steps - old(steps) + left <= gas + 1 && old(steps) <= steps
      ensures err != Ok ==> world == old(world)
      decreases gas, 8
    {
      hide NoCollisions;
      if depth > CALL_CREATE_DEPTH { return Depth, [], gas; }
      var snapshot := world;
      var code := CodeAt(world, addr);
      var f := new Frame(code, Some(ctx.hash(code)), addr, caller, 0, input, gas);
      world := world.(accounts := world.accounts + {addr});
      StartReady(code);
      err, ret := RunContract(f, addr, true, snapshot);
      left := f.gas;
    }

    /** Runs a frame to its end. The read-only flag is set by the frame that asks for it first, and
        reset by that frame only. */
    method Run(f: Frame, ro: bool) returns (err: Err, ret: seq<byte>)
      requires Valid() && f.Ready(ctx.hash)
      modifies this, cache, f, f.mem
      ensures Valid() && depth == old(depth) && readOnly == old(readOnly)
      ensures ro || old(readOnly) ==> Same(old(world), world)
      ensures f.gas <= old(f.gas) && steps - old(steps) + f.gas <= old(f.gas) + 1 && old(steps) <= steps
      ensures err == Ok || err == Reverted ==> f.mem.Valid() && f.gas + f.mem.paid <= old(f.gas + f.mem.paid)
      ensures |f.code| == 0 ==> err == Ok && ret == [] && world == old(world) && f.gas == old(f.gas) && steps == old(steps)
      ensures |f.code| > 0 && old(f.pc) == 0 && old(f.stack) == [] ==>
                (steps - old(steps) > old(f.gas) <==> Landing(f.code, old(f.gas)))
      decreases f.gas, 6
    {
      hide NoCollisions;
      depth := depth + 1;
      var sets := ro && !readOnly;
      if sets {
        readOnly := true;
      }
      returnData := [];
      if |f.code| == 0 {
        err, ret := Ok, [];
      } else {
        err, ret := Loop(f);
      }
      if sets {
        readOnly := false;
      }
      depth := depth - 1;
    }

    method Loop(f: Frame) returns (err: Err, ret: seq<byte>)
      requires Valid() && f.Ready(ctx.hash) && f.mem.Valid()
      modifies this, cache, f, f.mem
      ensures Valid() && depth == old(depth) && readOnly == old(readOnly)
      ensures old(readOnly) ==> Same(old(world), world)
      ensures f.gas <= old(f.gas) && steps - old(steps) + f.gas <= old(f.gas) + 1 && old(steps) <= steps
      ensures err == Ok || err == Reverted ==> f.mem.Valid() && f.gas + f.mem.paid <= old(f.gas + f.mem.paid)
      ensures old(f.pc) == 0 && old(f.stack) == [] ==>
                (steps - old(steps) > old(f.gas) <==> Landing(f.code, old(f.gas)))
      decreases f.gas, 5
    {
      hide NoCollisions, Same, Frame.Ready, Memory.Valid, JumpCache.Valid, Course, Landing;
      SameAsItself(world);
      CourseStart(f.code, f.gas);
      var r := Next;
      while r == Next
        invariant Valid() && depth == old(depth) && readOnly == old(readOnly) && f.gas <= old(f.gas)
        invariant readOnly ==> Same(old(world), world)
        invariant steps - old(steps) + f.gas <= old(f.gas) + (if r == Next then 0 else 1) && old(steps) <= steps
        invariant r == Next ==> f.Ready(ctx.hash)
        invariant r == Next || r.err == Ok || r.err == Reverted ==>
                    f.mem.Valid() && f.gas + f.mem.paid <= old(f.gas + f.mem.paid)
        invariant old(f.pc) == 0 && old(f.stack) == [] && r == Next ==>
                    Course(f.code, old(f.gas), steps - old(steps), f.gas, f.pc, f.stack)
        invariant old(f.pc) == 0 && old(f.stack) == [] && r != Next ==>
                    (steps - old(steps) > old(f.gas) <==> Landing(f.code, old(f.gas)))
        decreases f.gas, r == Next
      {
        ghost var before, k, gas, pc, stack := world, steps - old(steps), f.gas, f.pc, f.stack;
        r := Step(f);
        if readOnly {
          SameAndSame(old(world), before, world);
        }
        if old(f.pc) == 0 && old(f.stack) == [] {
          CourseStep(f.code, old(f.gas), k, gas, pc, stack, steps - old(steps), f.gas, f.pc, f.stack, r == Next);
        }
      }
      err, ret := r.err, r.ret;
    }

    /** One instruction. It costs at least one unit of gas unless it ends the frame. */
    method Step(f: Frame) returns (r: StepResult)
      requires Valid() && f.Ready(ctx.hash)
      modifies this, cache, f, f.mem
      ensures Valid() && depth == old(depth) && readOnly == old(readOnly)
      ensures old(readOnly) ==> Same(old(world), world)
      ensures steps - old(steps) + f.gas <= old(f.gas) + (if r == Next then 0 else 1) && old(steps) <= steps
      ensures r == Next ==> f.Ready(ctx.hash) && f.gas < old(f.gas)
      ensures f.gas <= old(f.gas)
      ensures AtStop(f.code, old(f.pc)) && |old(f.stack)| <= STACK_LIMIT ==>
                r == Done(Ok, []) && steps == old(steps) + 1 && f.gas == old(f.gas)
      ensures r == Next || r.err == Ok || r.err == Reverted ==>
                f.mem.Valid() && f.gas + f.mem.paid <= old(f.gas + f.mem.paid)
      ensures AtJumpdest(f.code, old(f.pc)) && old(f.gas) > 0 && old(f.stack) == [] ==>
                r == Next && f.pc == old(f.pc) + 1 && f.stack == [] && f.gas == old(f.gas) - 1 && steps == old(steps) + 1
      ensures r == Next && !AtJumpdest(f.code, old(f.pc)) ==> steps - old(steps) + f.gas < old(f.gas)
      ensures r.Done? && old(f.stack) == [] && !AtStop(f.code, old(f.pc)) ==> steps == old(steps)
      decreases f.gas, 4
    {
      hide NoCollisions, IsStart, Table, StackFits, TableShape, MemNeed, Floor, Same, JumpCache.Valid;
      SameAsItself(world);
      var op: byte := if f.pc < |f.code| then f.code[f.pc] else 0;
      var entry := Table(op);
      StopAtEnd(f.stack);
      OnlyJumpdest(op);
      if entry == None { return Done(InvalidOpcode, []); }
      var o := entry.value;
      EmptyStackOps(op, f.stack);
      if !StackFits(o, f.stack) { return Done(StackError, []); }
      if readOnly && Forbidden(o, f.stack) { return Done(WriteProtection, []); }
      TableShaped(op);
      ghost var before := f.gas;
      var ok, fee := Charge(f, o);
      if !ok { return Done(OutOfGas, []); }
      steps := steps + 1;
      r := Execute(f, op, o, before - fee);
    }

    /** Executes a charged instruction. */
    method Execute(f: Frame, op: byte, o: Operation, ghost limit: nat) returns (r: StepResult)
      requires Valid() && f.Ready(ctx.hash) && Table(op) == Some(o) && TableShape(o) && StackFits(o, f.stack)
      requires op == if f.pc < |f.code| then f.code[f.pc] else 0
      requires MemNeed(o, f.stack) <= |f.mem.store| && (readOnly ==> !Forbidden(o, f.stack)) && limit < TWO_64
      requires f.gas + Floor(o, f.stack) + (if IsCall(o.kind) then callGasTemp else 0) <= limit
      modifies this, cache, f`gas, f`pc, f`stack, f.mem`store
      ensures Valid() && depth == old(depth) && readOnly == old(readOnly)
      ensures old(readOnly) ==> Same(old(world), world)
      ensures r == Next ==> f.Ready(ctx.hash) && steps - old(steps) + f.gas + Price(o) <= limit && old(steps) <= steps
      ensures IsStackOnly(o.kind) ==> r == Next && steps == old(steps) && f.gas == old(f.gas)
      ensures o == Operation(Plain(1), 0, 0) ==> f.pc == old(f.pc) + Length(op) && f.stack == old(f.stack)
      ensures r.Done? ==> steps == old(steps) && f.gas == old(f.gas)
      ensures o.kind.Stop? ==> r == Done(Ok, [])
      ensures r.Done? && (r.err == Ok || r.err == Reverted) ==> f.mem.Valid()
      decreases limit, 3
    {
      hide NoCollisions, IsStart, Table, MemNeed, Floor, Same, JumpCache.Valid, StackAfter, Stored, Loaded, WorldAfter,
           TableShape, StackFits;
      ShapeOf(o, f.stack);
      TableShaped(op);
      SameAsItself(world);
      if o.kind.Stop? { return Done(Ok, []); }
      assert 0x00 != op by { StopOnly(op); }
      FloorOne(o, f.stack);
      ArithArity(op);
      NothingTaken(f.stack);
      if o.kind.Return? || o.kind.Revert? {
        r := ExecReturn(f, o);
      } else if IsStackOnly(o.kind) {
        r := ExecStack(f, op, o);
      } else if UsesMemory(o.kind) {
        r := ExecMemory(f, op, o);
      } else if o.kind.Jump? || o.kind.JumpI? {
        r := ExecJump(f, o);
      } else if IsCall(o.kind) {
        r := ExecCall(f, o, limit);
      } else if o.kind.Create? || o.kind.Create2? {
        r := ExecCreate(f, o, limit);
      } else {
        r := ExecWrite(f, o);
      }
    }

    /** The data a frame ends with. */
    method ExecReturn(f: Frame, o: Operation) returns (r: StepResult)
      requires TableShape(o) && StackFits(o, f.stack) && MemNeed(o, f.stack) <= |f.mem.store|
      requires o.kind.Return? || o.kind.Revert?
      modifies `returnData
      ensures r.Done? && r.err == (if o.kind.Return? then Ok else Reverted)
      ensures var offset, size := Back(f.stack, 0), Back(f.stack, 1);
              r.ret == if size == 0 then [] else f.mem.store[offset..offset + size]
      ensures returnData == if o.kind.Revert? then r.ret else old(returnData)
    {
      var ret := f.mem.Get(Back(f.stack, 0), Back(f.stack, 1));
      if o.kind.Return? { return Done(Ok, ret); }
      returnData := ret;
      return Done(Reverted, ret);
    }

    /** Hands all but a 64th of the gas to a new contract. */
    method ExecCreate(f: Frame, o: Operation, ghost limit: nat) returns (r: StepResult)
      requires Valid() && f.Ready(ctx.hash) && f.pc < |f.code| && Length(f.code[f.pc]) == 1 && !readOnly
      requires TableShape(o) && StackFits(o, f.stack) && MemNeed(o, f.stack) <= |f.mem.store|
      requires (o.kind.Create? || o.kind.Create2?) && f.gas + Floor(o, f.stack) <= limit < TWO_64
      modifies this, cache, f`gas, f`pc, f`stack
      ensures Valid() && depth == old(depth) && readOnly == old(readOnly)
      ensures r == Next && f.Ready(ctx.hash) && f.gas >= old(f.gas) / 64
      ensures steps - old(steps) + f.gas + 2 <= limit && old(steps) <= steps
      decreases limit, 2
    {
      hide IsStart, NoCollisions, Frame.Ready, Memory.Valid, JumpCache.Valid, MemNeed;
      CreateSpan(o, f.stack);
      var value := Back(f.stack, 0);
      var code := f.mem.Get(Back(f.stack, 1), Back(f.stack, 2));
      var kept := f.gas / 64;
      var gas := f.gas - kept;
      var address, codeHash := NewAddress(f, o, code);
      var err, ret, returnGas := Create(f.self, code, codeHash, gas, value, address);
      FinishCreate(f, o, err, ret, kept + returnGas, address);
      r := Next;
    }

    method NewAddress(f: Frame, o: Operation, code: Code) returns (address: Address, codeHash: Option<Hash>)
      requires StackFits(o, f.stack) && TableShape(o) && (o.kind.Create? || o.kind.Create2?)
      ensures codeHash.Some? ==> codeHash.value == ctx.hash(code)
    {
      if o.kind.Create? {
        return ctx.newAddress(f.self, Lookup(world.nonces, f.self) + 1), None;
      }
      return ctx.newAddress2(f.self, Back(f.stack, 3), code), Some(ctx.hash(code));
    }

    /** Puts the result of a creation into the creator's frame. */
    method FinishCreate(f: Frame, o: Operation, err: Err, ret: seq<byte>, gas: nat, address: Address)
      requires f.Ready(ctx.hash) && f.pc < |f.code| && Length(f.code[f.pc]) == 1 && gas < TWO_64
      requires TableShape(o) && StackFits(o, f.stack)
      modifies `returnData, f`gas, f`pc, f`stack
      ensures f.Ready(ctx.hash) && f.gas == gas
      ensures f.stack == old(f.stack)[..|old(f.stack)| - o.pops] + [if err == Ok then address else 0]
    {
      hide IsStart;
      Advance(f.code, f.pc);
      f.gas := gas;
      returnData := if err == Reverted then ret else [];
      f.stack := f.stack[..|f.stack| - o.pops] + [if err == Ok then address else 0];
      f.pc := f.pc + 1;
    }

    /** Makes a new account and runs its deployment code, whose result becomes the account's code. */
    method Create(caller: Address, code: Code, codeHash: Option<Hash>, gas: nat, value: nat, address: Address)
      returns (err: Err, ret: seq<byte>, left: nat)
      requires Valid() && gas < TWO_64 && !readOnly && (codeHash.Some? ==> codeHash.value == ctx.hash(code))
      modifies this, cache
      ensures Valid() && depth == old(depth) && readOnly == old(readOnly)
      ensures left <= gas && steps - old(steps) + left <= gas + 1 && old(steps) <= steps
      ensures err != Ok ==> world == old(world) || world == Counted(old(world), caller)
      decreases gas, 8
    {
      hide NoCollisions;
      if depth > CALL_CREATE_DEPTH { return Depth, [], gas; }
      if Lookup(world.balances, caller) < value { return InsufficientBalance, [], gas; }
      world := Counted(world, caller);
      if Lookup(world.nonces, address) != 0 || CodeAt(world, address) != [] {
        return AddressCollision, [], 0;
      }
      var snapshot := world;
      world := world.(accounts := world.accounts + {address}, nonces := world.nonces[address := 1]);
      world := Transfer(world, caller, address, value);
      var f := new Frame(code, codeHash, address, caller, value, [], gas);
      StartReady(code);
      err, ret := RunContract(f, address, false, world);
      if err == Ok {
        if |ret| > MAX_CODE_SIZE {
          err := CodeSizeExceeded;
        } else {
          var paid := f.UseGas(|ret| * CREATE_DATA_GAS);
          if paid {
            world := world.(codes := world.codes[address := ret]);
          } else {
            err := CodeStoreOutOfGas;
          }
        }
      }
      if err != Ok {
        world := snapshot;
        if err != Reverted {
          f.gas := 0;
        }
      }
      left := f.gas;
    }
  }

  /** The nonce a creation uses up, whether it succeeds or not. */
  function Counted(w: World, caller: Address): World {
    w.(nonces := w.nonces[caller := Lookup(w.nonces, caller) + 1])
  }

  lemma StopFree(o: Operation, stack: seq<nat>, w: World, self: Address)
    requires StackFits(o, stack) && TableShape(o)
    ensures o.kind.Stop? ==> MemNeed(o, stack) == 0 && OwnGas(o, stack, w, self) == Some(0)
    ensures o.kind.Plain? ==> MemNeed(o, stack) == 0 && OwnGas(o, stack, w, self) == Some(o.kind.gas)
  {
  }

  /** On an empty stack only instructions that take nothing go ahead: a stop, or one that goes on. */
  lemma EmptyStackOps(op: byte, stack: seq<nat>)
    requires Table(op).Some?
    ensures stack == [] && StackFits(Table(op).value, stack) ==>
              Table(op).value.kind.Stop? || IsStackOnly(Table(op).value.kind)
    ensures stack == [] ==> StackFits(Operation(Plain(1), 0, 0), stack)
    ensures Table(op).value.kind.Stop? ==> op == 0
  {
    hide Table;
    TableShaped(op);
    assert Table(op).value.kind.Stop? ==> op == 0 by { StopIsZero(op); }
  }

  lemma StopIsZero(op: byte)
    ensures Table(op).Some? && Table(op).value.kind.Stop? ==> op == 0
  {
  }

  /** For every amount of gas there is a program that executes one instruction more. */
  lemma LandingFor(gas: nat) returns (code: Code)
    ensures |code| > 0 && Landing(code, gas)
  {
    code := seq(gas, _ => JUMPDEST) + [0];
  }

  lemma CourseStart(code: Code, gas: nat)
    ensures Course(code, gas, 0, gas, 0, [])
  {
  }

  /** One more instruction keeps a run on its course, or ends it. */
  lemma CourseStep(code: Code, supplied: nat, k: int, gas: nat, pc: nat, stack: seq<nat>,
                   k': int, gas': nat, pc': nat, stack': seq<nat>, goesOn: bool)
    requires Course(code, supplied, k, gas, pc, stack) && k' - k + gas' <= gas + (if goesOn then 0 else 1)
    requires AtStop(code, pc) && stack == [] ==> !goesOn && k' == k + 1 && gas' == gas
    requires AtJumpdest(code, pc) && gas > 0 && stack == [] ==>
               goesOn && pc' == pc + 1 && stack' == [] && gas' == gas - 1 && k' == k + 1
    requires goesOn && !AtJumpdest(code, pc) ==> k' - k + gas' < gas
    requires goesOn ==> gas' < gas
    requires !goesOn && stack == [] && !AtStop(code, pc) ==> k' == k
    ensures goesOn ==> Course(code, supplied, k', gas', pc', stack')
    ensures !goesOn ==> (k' > supplied <==> Landing(code, supplied))
  {
  }

  lemma StopAtEnd(stack: seq<nat>)
    ensures Table(0) == Some(Operation(Stop, 0, 0))
    ensures |stack| <= STACK_LIMIT ==> StackFits(Operation(Stop, 0, 0), stack)
  {
  }

  lemma StopOnly(op: byte)
    requires Table(op).Some? && !Table(op).value.kind.Stop?
    ensures op != 0
  {
  }

  /** What a read-only frame refuses: instructions that write, and calls that move value. */
  predicate Forbidden(o: Operation, stack: seq<nat>) {
    Writes(o.kind) || (o.kind.Call? && |stack| > 2 && Back(stack, 2) != 0)
  }

  /** The memory of a call covers its arguments and its result. */
  lemma CallSpans(o: Operation, stack: seq<nat>)
    requires TableShape(o) && StackFits(o, stack) && IsCall(o.kind)
    ensures var at := ArgsAt(o.kind);
            at + 4 == o.pops && Span(Back(stack, at), Back(stack, at + 1)) <= MemNeed(o, stack) &&
            Span(Back(stack, at + 2), Back(stack, at + 3)) <= MemNeed(o, stack)
  {
  }

  lemma CreateSpan(o: Operation, stack: seq<nat>)
    requires TableShape(o) && StackFits(o, stack) && (o.kind.Create? || o.kind.Create2?)
    ensures Span(Back(stack, 1), Back(stack, 2)) == MemNeed(o, stack)
  {
  }

  lemma CallHasGas(o: Operation, stack: seq<nat>)
    requires StackFits(o, stack) && TableShape(o)
    ensures IsCall(o.kind) ==> |stack| > 0
  {
  }

  lemma NothingTaken(s: seq<nat>)
    ensures StackShape(Operation(Plain(1), 0, 0), s)
    ensures forall value: nat :: StackAfter(Operation(Plain(1), 0, 0), s, value) == s
  {
  }

  lemma FloorOne(o: Operation, stack: seq<nat>)
    requires StackFits(o, stack) && TableShape(o)
    ensures !Halts(o.kind) ==> Floor(o, stack) >= Price(o)
  {
  }

  lemma ShapeOf(o: Operation, s: seq<nat>)
    requires TableShape(o) && StackFits(o, s)
    ensures StackShape(o, s) && (o.kind.Call? ==> |s| > 2)
  {
  }

  lemma PopsFit(o: Operation, stack: seq<nat>)
    requires StackFits(o, stack)
    ensures o.pops <= |stack|
  {
  }

  lemma SameAsItself(w: World)
    ensures Same(w, w)
  {
  }

  lemma SameAndSame(w: World, w': World, w'': World)
    requires Same(w, w') && Same(w', w'')
    ensures Same(w, w'')
  {
  }

  lemma StartReady(code: Code)
    ensures Standing(code, 0)
  {
  }

  /** An instruction has cost its memory, its own gas and what a call hands over. */
  ghost predicate Settled(o: Operation, stack: seq<nat>, w: World, self: Address, before: nat, after: nat, fee: nat, handed: nat)
    requires StackFits(o, stack) && TableShape(o)
  {
    var own := OwnGas(o, stack, w, self);
    own.Some? && fee + own.value < TWO_64 && before < TWO_64 &&
    if IsCall(o.kind) then
      after + handed + fee + own.value == before && handed == CallGas(before, fee + own.value, Back(stack, 0))
    else after + fee + own.value == before
  }

  predicate StackShape(o: Operation, s: seq<nat>) {
    o.pops <= |s| && (o.kind.Dup? ==> 1 <= o.kind.n <= |s|) && (o.kind.Swap? ==> 1 <= o.kind.n < |s|)
  }

  /** The stack after an instruction that only touches the stack. */
  function StackAfter(o: Operation, s: seq<nat>, value: nat): seq<nat>
    requires IsStackOnly(o.kind) && StackShape(o, s)
  {
    if o.kind.Dup? then s + [Back(s, o.kind.n - 1)]
    else if o.kind.Swap? then Swapped(s, o.kind.n)
    else if o.pushes == 0 then s[..|s| - o.pops]
    else s[..|s| - o.pops] + [value]
  }

  /** The top and the n-th item below it change places. */
  function Swapped(s: seq<nat>, n: nat): (r: seq<nat>)
    requires 1 <= n < |s|
    ensures |r| == |s| && Back(r, 0) == Back(s, n) && Back(r, n) == Back(s, 0)
    ensures forall i | 0 <= i < |s| && i != |s| - 1 && i != |s| - 1 - n :: r[i] == s[i]
  {
    s[..|s| - 1 - n] + [s[|s| - 1]] + s[|s| - n..|s| - 1] + [s[|s| - 1 - n]]
  }

  /** The data of a push, padded with zeros past the end of the code. */
  function Pushed(code: Code, pc: nat, size: nat): nat {
    ToNat(GetData(code, pc + 1, size))
  }

  /** The arithmetic instruction of an opcode. */
  function ArithOf(op: byte): Option<IntPool.Arith> {
    if op == 0x01 then Some(IntPool.Add) else if op == 0x02 then Some(IntPool.Mul)
    else if op == 0x03 then Some(IntPool.Sub) else if op == 0x04 then Some(IntPool.Div)
    else if op == 0x05 then Some(IntPool.SDiv) else if op == 0x06 then Some(IntPool.Mod)
    else if op == 0x07 then Some(IntPool.SMod) else if op == 0x08 then Some(IntPool.AddMod)
    else if op == 0x09 then Some(IntPool.MulMod) else if op == 0x0a then Some(IntPool.Exp)
    else if op == 0x0b then Some(IntPool.SignExtend) else if op == 0x10 then Some(IntPool.Lt)
    else if op == 0x11 then Some(IntPool.Gt) else if op == 0x12 then Some(IntPool.Slt)
    else if op == 0x13 then Some(IntPool.Sgt) else if op == 0x14 then Some(IntPool.Eq)
    else if op == 0x15 then Some(IntPool.IsZero) else if op == 0x16 then Some(IntPool.And)
    else if op == 0x17 then Some(IntPool.Or) else if op == 0x18 then Some(IntPool.Xor)
    else if op == 0x19 then Some(IntPool.Not) else if op == 0x1a then Some(IntPool.ByteOf)
    else if op == 0x1b then Some(IntPool.Shl) else if op == 0x1c then Some(IntPool.Shr)
    else if op == 0x1d then Some(IntPool.Sar) else None
  }

  /** The operands of an arithmetic instruction are there. */
  predicate HasOperands(op: byte, s: seq<nat>) {
    ArithOf(op).Some? ==> IntPool.Arity(ArithOf(op).value) <= |s|
  }

  /** The value of an instruction without side effects: arithmetic on words, or what the context says. */
  function PlainValue(ctx: Context, op: byte, seen: Snapshot): nat
    requires HasOperands(op, seen.stack)
  {
    var a := ArithOf(op);
    if a.Some? then Computed(a.value, seen.stack) else ctx.word(op, seen)
  }

  function Computed(a: IntPool.Arith, s: seq<nat>): nat
    requires IntPool.Arity(a) <= |s|
  {
    if IntPool.Arity(a) == 1 then IntPool.Unary(a, Words.U256(Back(s, 0)))
    else if IntPool.Arity(a) == 2 then IntPool.Binary(a, Words.U256(Back(s, 0)), Words.U256(Back(s, 1)))
    else IntPool.Ternary(a, Words.U256(Back(s, 0)), Words.U256(Back(s, 1)), Words.U256(Back(s, 2)))
  }

  /** The arithmetic of the interpreter is that of the pure machine which the pooled integers refine. */
  lemma ComputedIsEval(a: IntPool.Arith, s: seq<IntPool.word>)
    requires IntPool.Arity(a) <= |s|
    ensures s[..|s| - IntPool.Arity(a)] + [Computed(a, s)] == IntPool.Eval(a, s)
  {
    hide IntPool.Binary, IntPool.Unary, IntPool.Ternary;
    forall i | 0 <= i < |s| ensures Words.U256(s[i]) == s[i] {
      IntPool.SmallWord(s[i]);
    }
  }

  /** The table agrees with the arity of every arithmetic instruction. */
  lemma ArithArity(op: byte)
    ensures ArithOf(op).Some? ==>
              Table(op).Some? && Table(op).value.pops == IntPool.Arity(ArithOf(op).value) && Table(op).value.pushes == 1
  {
  }

  /** What an instruction reads from memory onto the stack. */
  ghost function Loaded(ctx: Context, o: Operation, s: seq<nat>, store: seq<byte>): seq<nat>
    requires TableShape(o) && StackFits(o, s) && MemNeed(o, s) <= |store| && UsesMemory(o.kind)
  {
    if o.kind.MLoad? then [ToNat(store[Back(s, 0)..Back(s, 0) + 32])]
    else if o.kind.Sha3? then
      [ToNat(ctx.hash(if Back(s, 1) == 0 then [] else store[Back(s, 0)..Back(s, 0) + Back(s, 1)]))]
    else []
  }

  /** The memory after an instruction that writes it. */
  ghost function Stored(o: Operation, s: seq<nat>, store: seq<byte>, source: seq<byte>): seq<byte>
    requires TableShape(o) && StackFits(o, s) && UsesMemory(o.kind)
  {
    if o.kind.MStore? then Overwrite(store, Back(s, 0), 32, ToBytes(Back(s, 1), 32))
    else if o.kind.MStore8? then Overwrite(store, Back(s, 0), 1, [Back(s, 1) % 256])
    else if o.kind.Copy? then Overwrite(store, Back(s, 0), Back(s, 2), GetData(source, Back(s, 1), Back(s, 2)))
    else if o.kind.ExtCopy? then Overwrite(store, Back(s, 1), Back(s, 3), GetData(source, Back(s, 2), Back(s, 3)))
    else store
  }

  /** The state after a write. */
  function WorldAfter(o: Operation, w: World, self: Address, s: seq<nat>, data: seq<byte>): World
    requires TableShape(o) && StackFits(o, s) && (o.kind.SStore? || o.kind.LogN? || o.kind.SelfDestruct?)
  {
    if o.kind.SStore? then w.(storage := w.storage[(self, Back(s, 0)) := Back(s, 1)])
    else if o.kind.LogN? then w.(logs := w.logs + [Log(self, Topics(s, o.kind.topics), data)])
    else Destroyed(w, self, Back(s, 0))
  }

  function Topics(s: seq<nat>, n: nat): (t: seq<nat>)
    requires n + 2 <= |s|
    ensures |t| == n && forall i | 0 <= i < n :: t[i] == Back(s, i + 2)
  {
    seq(n, i requires 0 <= i < n => s[|s| - 3 - i])
  }

  /** All of an account's balance goes to the heir; nothing of it is left, even to itself. */
  function Destroyed(w: World, self: Address, heir: Address): World {
    var credited := w.balances[heir := Lookup(w.balances, heir) + Lookup(w.balances, self)];
    w.(balances := credited[self := 0])
  }

  predicate IsStackOnly(k: Kind) {
    k.Plain? || k.Exp? || k.Push? || k.Dup? || k.Swap?
  }

  predicate UsesMemory(k: Kind) {
    k.Sha3? || k.Copy? || k.ExtCopy? || k.MLoad? || k.MStore? || k.MStore8?
  }

  predicate AtJumpdest(code: Code, pc: nat) {
    pc < |code| && code[pc] == JUMPDEST
  }

  /** The gas lasts exactly for jump destinations up to a stop. */
  ghost predicate Landing(code: Code, gas: nat) {
    gas <= |code| && (forall i | 0 <= i < gas :: code[i] == JUMPDEST) && AtStop(code, gas)
  }

  /** A fresh run after k instructions: jump destinations only, or already behind its gas. */
  ghost predicate Course(code: Code, supplied: nat, k: int, gas: nat, pc: nat, stack: seq<nat>) {
    (k == pc <= |code| && stack == [] && gas == supplied - k && forall i | 0 <= i < k :: code[i] == JUMPDEST) ||
    (k + gas < supplied && !Landing(code, supplied))
  }

  predicate AtStop(code: Code, pc: nat) {
    pc >= |code| || code[pc] == 0
  }

  ghost predicate IsTarget(code: Code, dest: nat) {
    dest < TWO_62 && dest < |code| && code[dest] == JUMPDEST && IsStart(code, dest)
  }

  lemma Advance(code: Code, pc: nat)
    requires Standing(code, pc) && pc < |code|
    ensures Standing(code, pc + Length(code[pc]))
  {
    NextStart(code, pc);
  }
}
