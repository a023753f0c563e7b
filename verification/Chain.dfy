/** `core/chain/blockchain.go`: accepting blocks, reorganisation and the eternal block. */
module Chain {
  import opened BigEndian
  import opened Ledger
  import opened Freshness
  import opened UtxoSets
  import opened Supply
  import opened Validation
  import opened Paths

  class BlockChain {
    const env: Env
    var store: map<Hash, Block>
    var heights: map<nat, Hash>
    var tail: Block
    var longestChainHeight: nat
    var eternal: Block
    var utxos: Db
    var txIndex: TxIndex
    /** The main chain from genesis to the tail, and every block ever accepted for storing. */
    ghost var path: seq<Block>
    ghost var known: map<Hash, Block>

    ghost predicate Valid()
      reads this
    {
      GoodEnv(env) && GoodPath(env, path) && Universe(env, known) && Hashing(env, known) &&
      Kept(known, store, path) && Final(View(path, eternal)) &&
      tail == Last(path) && longestChainHeight == |path| - 1 && heights == HeightsOf(path) &&
      utxos == LedgerOf(env, path) && txIndex == IndexOf(env, path)
    }

    constructor (env: Env)
      requires GoodEnv(env)
      ensures Valid() && this.env == env && path == [env.genesis] && eternal == env.genesis && store == map[]
      ensures known == map[env.genesis.hash := env.genesis]
    {
      this.env := env;
      store, heights, known := map[], map[], map[env.genesis.hash := env.genesis];
      tail, eternal, longestChainHeight := env.genesis, env.genesis, 0;
      utxos, txIndex, path := env.base, env.index, [env.genesis];
    }

    /** Finds the parent of a block; the parent of genesis is genesis. */
    method GetParentBlock(block: Block) returns (parent: Option<Block>)
      requires Valid() && Seen(known, block)
      ensures block == env.genesis ==> parent == Some(env.genesis)
      ensures block != env.genesis ==> (parent.Some? <==> Held(env, store, block.prev))
      ensures block != env.genesis && parent.Some? ==>
                Follows(env, store, block) && parent.value == ParentIn(env, store, block) &&
                Seen(known, parent.value) && parent.value.hash == block.prev &&
                (parent.value == env.genesis || InStore(store, parent.value))
    {
      hide GoodPath, Hashing, LedgerOf, IndexOf, HeightsOf, Structured, GoodEnv;
      if block.hash == env.genesis.hash { return Some(env.genesis); }
      if block.prev == env.genesis.hash { return Some(env.genesis); }
      if block.prev in store { return Some(store[block.prev]); }
      return None;
    }

    /** Appends a block to the main chain, or leaves everything as it was. */
    method Connect(block: Block) returns (ok: bool)
      requires Valid() && Seen(known, block) && block.prev == tail.hash && block != env.genesis
      modifies `store, `heights, `tail, `longestChainHeight, `utxos, `txIndex, `path
      ensures Valid()
      ensures ok <==> Admissible(env, old(path), block)
      ensures ok ==> path == old(path) + [block] && store == old(store)[block.hash := block]
      ensures !ok ==> path == old(path) && store == old(store)
    {
      hide Structured, Hashing, Universe, GoodEnv, GoodPath, LedgerOf, IndexOf, HeightsOf, Fresh, Accepted, Run,
           BlockIndex, Shaped, Funded, Payable, Indexed, TxOutTotal, Kept, Final, Admissible, Seen;
      Ready(env, path, known, store, block);
      AdmissibleIf(env, path, block);
      if !env.verify(block) { return false; }
      var r := ExecuteBlock(utxos, txIndex, block, env.reward(longestChainHeight));
      if r == None { return false; }
      var index := WriteTxIndex(block, txIndex);
      Extend(env, path, block);
      ExtendHeights(path, block);
      ExtendKept(known, store, path, block);
      ExtendFinal(path, eternal, block);
      heights := heights[block.height := block.hash];
      store := store[block.hash := block];
      utxos, txIndex := r.value, index;
      tail, longestChainHeight := block, block.height;
      path := path + [block];
      ok := true;
    }

    method WriteTxIndex(block: Block, index: TxIndex) returns (index': TxIndex)
      ensures index' == index + BlockIndex(block, |block.txs|)
    {
      index' := index;
      for i := 0 to |block.txs|
        invariant index' == index + BlockIndex(block, i)
      {
        index' := index'[block.txs[i].hash := Located(block.height, block.txs[i])];
      }
    }

    /** Takes the tail off the main chain. */
    method Disconnect(block: Block)
      requires Valid() && block == tail && |path| > 1 && eternal.height < |path| - 1
      modifies `heights, `tail, `longestChainHeight, `utxos, `txIndex, `path
      ensures Valid() && path == Init(old(path))
    {
      hide Structured, Hashing, Universe, GoodEnv, GoodPath, LedgerOf, IndexOf, HeightsOf, Kept, Final;
      ShortenKept(known, store, path);
      ShortenFinal(path, eternal);
      PathSeen(env, path, known, store, |path| - 1);
      ParentFound(env, path, known, store, |path| - 1);
      var l, index := Undo(block);
      var newTail := GetParentBlock(block);
      heights := heights - {block.height};
      utxos, txIndex := l, index;
      tail, longestChainHeight := newTail.value, newTail.value.height;
      path := Init(path);
    }

    /** The unspent outputs and the transaction index without the tail. */
    method Undo(block: Block) returns (l: Db, index: TxIndex)
      requires Valid() && block == tail && |path| > 1
      ensures GoodPath(env, Init(path)) && l == LedgerOf(env, Init(path)) && index == IndexOf(env, Init(path))
      ensures HeightsOf(Init(path)) == heights - {|path| - 1}
    {
      hide Structured, Hashing, Universe, GoodEnv, GoodPath, LedgerOf, IndexOf, HeightsOf, Fresh, Admissible, Run,
           BlockIndex, ValidBlock, Payable, Indexed, Kept, Final, Readable, Hashes;
      ghost var before := Init(path);
      BeforeTail(env, path);
      var r := DisconnectUtxos(utxos, txIndex, block, LedgerOf(env, before), IndexOf(env, before));
      index := DelTxIndex(block, txIndex);
      l := r.value;
    }

    method DelTxIndex(block: Block, index: TxIndex) returns (index': TxIndex)
      ensures index' == index - Hashes(block, |block.txs|)
    {
      index' := index;
      for i := 0 to |block.txs|
        invariant index' == index - Hashes(block, i)
      {
        index' := index' - {block.txs[i].hash};
        assert Hashes(block, i + 1) == Hashes(block, i) + {block.txs[i].hash};
      }
    }

    /** Goes down the branch to the height of the main chain. */
    method RaiseSide(block: Block) returns (attach: seq<Block>, side: Option<Block>)
      requires Valid() && Seen(known, block) && block.height > longestChainHeight
      ensures side == None ==> !AncestryHeld(env, store, path, block)
      ensures side.Some? ==>
                Climbs(known, attach, block, side.value) && Walked(env, store, path, block, attach, side.value)
      ensures side.Some? ==> side.value.height == longestChainHeight && Seen(known, side.value)
      ensures |attach| <= block.height - longestChainHeight
    {
      hide GoodPath, Hashing, LedgerOf, IndexOf, HeightsOf, Structured, GoodEnv, Universe, Kept, Final, Climbs, Held,
           Follows, ParentIn, AncestryHeld, Walked;
      attach, side := [], Some(block);
      ClimbStart(known, block);
      WalkStart(env, store, path, block);
      var i := block.height;
      while i > longestChainHeight
        invariant longestChainHeight <= i <= block.height && |attach| == block.height - i
        invariant side == None ==> !AncestryHeld(env, store, path, block)
        invariant side.Some? ==>
                    Climbs(known, attach, block, side.value) && Walked(env, store, path, block, attach, side.value)
        invariant side.Some? ==> side.value.height == i && Seen(known, side.value)
      {
        if side == None { return; }
        NotGenesis(env, side.value);
        var parent := GetParentBlock(side.value);
        Down(env, known, store, path, attach, block, side.value, parent);
        attach := attach + [side.value];
        side := parent;
        i := i - 1;
      }
    }

    /** The fork point of a branch that is longer than the main chain, with the blocks above it on
        either side, topmost first; none exactly where an ancestor is not stored. */
    method FindFork(block: Block) returns (r: Option<Fork>)
      requires Valid() && Seen(known, block) && block.height > longestChainHeight
      ensures r.Some? <==> AncestryHeld(env, store, path, block)
      ensures r.Some? ==> IsFork(path, known, block, r.value) && IsBranch(env, store, path, block, r.value)
    {
      hide GoodPath, Hashing, LedgerOf, IndexOf, HeightsOf, Structured, GoodEnv, Universe, Kept, Final, IsFork,
           Climbs, Held, Follows, ParentIn, AncestryHeld, Walked, IsBranch;
      var detach: seq<Block> := [];
      var attach, side := RaiseSide(block);
      if side == None { return None; }
      HighApart(path, known, attach, block, side.value);
      var main := tail;
      PathSeen(env, path, known, store, |path| - 1);
      while side.Some? && main.hash != side.value.hash
        invariant Seen(known, main) && main.height < |path| && main == path[main.height]
        invariant |detach| == |path| - 1 - main.height && |attach| == block.height - main.height
        invariant forall k | 0 <= k < |detach| :: detach[k] == path[|path| - 1 - k]
        invariant side == None ==> !AncestryHeld(env, store, path, block)
        invariant side.Some? ==>
                    Climbs(known, attach, block, side.value) && Walked(env, store, path, block, attach, side.value)
        invariant side.Some? ==> side.value.height == main.height && Seen(known, side.value)
        invariant Apart(path, attach, main.height)
        decreases main.height
      {
        Alone(env, known, main, side.value);
        PathSeen(env, path, known, store, main.height);
        PathSeen(env, path, known, store, main.height - 1);
        ParentFound(env, path, known, store, main.height);
        var mainParent := GetParentBlock(main);
        var sideParent := GetParentBlock(side.value);
        Down(env, known, store, path, attach, block, side.value, sideParent);
        ApartStep(path, attach, main.height, side.value);
        detach, attach := detach + [main], attach + [side.value];
        main, side := mainParent.value, sideParent;
      }
      if side == None { return None; }
      r := Some(Fork(main, detach, attach));
      ForkFound(path, known, block, r.value);
      BranchFound(env, store, path, block, r.value);
    }

    /** Takes the main chain down to the fork point. */
    method DetachAll(block: Block, f: Fork)
      requires Valid() && IsFork(path, known, block, f) && eternal.height <= f.point.height
      modifies `heights, `tail, `longestChainHeight, `utxos, `txIndex, `path
      ensures Valid() && path == old(path)[..f.point.height + 1]
    {
      hide Structured, Hashing, Universe, GoodEnv, GoodPath, LedgerOf, IndexOf, HeightsOf, Kept, Final, Climbs;
      ghost var start := path;
      for k := 0 to |f.detach|
        invariant Valid() && path == start[..|start| - k]
      {
        Disconnect(f.detach[k]);
      }
    }

    /** Connects the blocks of a branch, lowest first, and stops at the first that is refused. */
    method AttachAll(block: Block, f: Fork) returns (k: nat)
      requires Valid() && Climbs(known, f.attach, block, f.point) && tail == f.point && |f.attach| > 0
      requires forall k | 0 < k < |f.attach| :: InStore(store, f.attach[k])
      modifies `store, `heights, `tail, `longestChainHeight, `utxos, `txIndex, `path
      ensures Valid() && k <= |f.attach| && path == old(path) + Upward(f.attach, k)
      ensures 0 < k ==> !Admissible(env, path, f.attach[k - 1])
      ensures store == if k == 0 then old(store)[block.hash := block] else old(store)
    {
      hide Structured, Hashing, Universe, GoodEnv, GoodPath, LedgerOf, IndexOf, HeightsOf, Kept, Final, Admissible;
      ghost var start := path;
      k := |f.attach|;
      while k > 0
        invariant k <= |f.attach| && Valid() && path == start + Upward(f.attach, k)
        invariant tail == if k == |f.attach| then f.point else f.attach[k]
        invariant store == if k == 0 then old(store)[block.hash := block] else old(store)
      {
        NotGenesis(env, f.attach[k - 1]);
        var ok := Connect(f.attach[k - 1]);
        if !ok { return; }
        k := k - 1;
      }
    }

    /** Puts the old main chain back: the attached blocks come off, the detached ones go on again. */
    method RollBack(block: Block, f: Fork, k: nat, ghost start: seq<Block>)
      requires Valid() && GoodPath(env, start) && IsFork(start, known, block, f) && k <= |f.attach|
      requires Kept(known, store, start)
      requires path == start[..f.point.height + 1] + Upward(f.attach, k) && eternal.height <= f.point.height
      modifies `store, `heights, `tail, `longestChainHeight, `utxos, `txIndex, `path
      ensures Valid() && path == start && store == old(store)
    {
      hide Structured, Hashing, Universe, GoodEnv, GoodPath, LedgerOf, IndexOf, HeightsOf, Kept, Final, Admissible,
           Climbs;
      var i := k;
      while i < |f.attach|
        invariant k <= i <= |f.attach| && Valid() && path == start[..f.point.height + 1] + Upward(f.attach, i)
        invariant old(store) == store
      {
        assert Init(path) == start[..f.point.height + 1] + Upward(f.attach, i + 1);
        Disconnect(f.attach[i]);
        i := i + 1;
      }
      assert path == start[..f.point.height + 1];
      Reattach(f.detach, start);
    }

    method Reattach(detach: seq<Block>, ghost start: seq<Block>)
      requires Valid() && GoodPath(env, start) && |detach| < |start| && path == start[..|start| - |detach|]
      requires Kept(known, store, start)
      requires forall k | 0 <= k < |detach| :: detach[k] == start[|start| - 1 - k]
      modifies `store, `heights, `tail, `longestChainHeight, `utxos, `txIndex, `path
      ensures Valid() && path == start && store == old(store)
    {
      hide Structured, Hashing, Universe, GoodEnv, GoodPath, LedgerOf, IndexOf, HeightsOf, Kept, Final, Admissible;
      var i := |detach|;
      while i > 0
        invariant 0 <= i <= |detach| && Valid() && path == start[..|start| - i]
        invariant store == old(store)
      {
        StillAdmissible(env, start, |start| - i);
        NotGenesis(env, detach[i - 1]);
        KeptBlock(known, store, start, |start| - i);
        var ok := Connect(detach[i - 1]);
        assert start[..|start| - i] + [detach[i - 1]] == start[..|start| - (i - 1)];
        i := i - 1;
      }
    }

    /** Switches to a longer branch. The main chain ends up as the branch exactly if every ancestor is held,
        the branch forks at or above the eternal block and all of it is admissible; otherwise it stays. */
    method Reorganize(block: Block) returns (o: Outcome)
      requires Valid() && Seen(known, block) && block.height > longestChainHeight
      modifies `store, `heights, `tail, `longestChainHeight, `utxos, `txIndex, `path
      ensures Valid() && Next(View(old(path), eternal), View(path, eternal))
      ensures o == BranchVerdict(env, old(store), old(path), eternal, block)
      ensures State(store, path) == After(env, State(old(store), old(path)), block, o)
    {
      hide Structured, Hashing, Universe, GoodEnv, GoodPath, LedgerOf, IndexOf, HeightsOf, Kept, Final, Admissible,
           Climbs, IsFork, Next, AncestryHeld, ForkHeight, BranchPath, BranchHashes, HashesOf;
      SameNext(path, eternal);
      var r := FindFork(block);
      if r == None {
        return Panicked;
      }
      var fork := r.value;
      if fork.point.height < eternal.height {
        RemoveAll(block, fork);
        return Dropped;
      }
      o := SwitchTo(block, fork);
    }

    /** Detaches, attaches, and rolls back if a block of the branch is refused. */
    method SwitchTo(block: Block, fork: Fork) returns (o: Outcome)
      requires Valid() && IsFork(path, known, block, fork) && eternal.height <= fork.point.height
      requires IsBranch(env, store, path, block, fork)
      modifies `store, `heights, `tail, `longestChainHeight, `utxos, `txIndex, `path
      ensures Valid() && Next(View(old(path), eternal), View(path, eternal))
      ensures o == if GoodPath(env, BranchPath(env, old(store), old(path), block)) then Switched else RolledBack
      ensures o == Switched ==>
                path == BranchPath(env, old(store), old(path), block) && store == old(store)[block.hash := block]
      ensures o == RolledBack ==> path == old(path) && store == old(store)
    {
      hide Structured, Hashing, Universe, GoodEnv, GoodPath, LedgerOf, IndexOf, HeightsOf, Kept, Final, Admissible,
           Climbs, IsFork, Next, AncestryHeld, ForkHeight, BranchPath, Upward;
      ghost var start := path;
      ForkFacts(env, path, known, block, fork);
      DetachAll(block, fork);
      var k := AttachAll(block, fork);
      if k > 0 {
        RefusedIsBad(env, start[..fork.point.height + 1], fork.attach, k);
        RollBack(block, fork, k, start);
        SameNext(path, eternal);
        return RolledBack;
      }
      AboveEternal(start, path, eternal, fork.point.height);
      return Switched;
    }

    /** Deletes the blocks of a refused branch from the store. */
    method RemoveAll(block: Block, f: Fork)
      requires Valid() && IsFork(path, known, block, f)
      modifies `store
      ensures Valid() && store == old(store) - HashesOf(f.attach)
    {
      hide Structured, Hashing, Universe, GoodEnv, GoodPath, LedgerOf, IndexOf, HeightsOf, Final, Admissible, Kept,
           HashesOf;
      NoHashes(f.attach);
      for i := 0 to |f.attach|
        invariant store == old(store) - HashesOf(f.attach[..i])
      {
        store := store - {f.attach[i].hash};
        Hashed(f.attach, i);
      }
      assert f.attach[..|f.attach|] == f.attach;
      KeptWithout(env, path, known, old(store), block, f);
    }

    /** The checks of a block on arrival, before it is accepted. */
    method ProcessBlock(block: Block, size: Tx -> nat) returns (o: Outcome)
      requires Valid() && NoCollision(known, block) && Hashing(env, known[block.hash := block])
      requires forall i | 0 <= i < |block.txs| :: WordSized(block.txs[i].outs)
      requires forall i | 0 <= i < |block.txs| :: RoughSize(block.txs[i]) <= size(block.txs[i])
      requires forall i | 0 < i < |block.txs| :: IsCoinBase(block.txs[i]) || Ordinary(block.txs[i])
      requires NoSelfSpend(block)
      modifies this
      ensures Valid() && eternal == old(eternal) && Next(View(old(path), old(eternal)), View(path, eternal))
      ensures o == if Held(env, old(store), block.hash) then Exists
                   else if !Checked(size, block) then Malformed
                   else if !Held(env, old(store), block.prev) then Orphan
                   else Verdict(env, old(store), old(path), eternal, block)
      ensures State(store, path) == After(env, State(old(store), old(path)), block, o)
    {
      hide Structured, Hashing, Universe, GoodEnv, GoodPath, LedgerOf, IndexOf, HeightsOf, Kept, Final, Admissible,
           Next, Checked, NoSelfSpend, Ordinary, WordSized, AncestryHeld, ForkHeight, BranchPath, BranchHashes;
      SameNext(path, eternal);
      if block.hash in store || block.hash == env.genesis.hash { return Exists; }
      var ok := ValidateBlock(block, size);
      if !ok { return Malformed; }
      if block.prev !in store && block.prev != env.genesis.hash { return Orphan; }
      SelfAlike(env, known, block);
      ValidatedIsStructured(size, block);
      o := TryAcceptBlock(block);
    }

    /** Accepts a block on the main chain, on a side chain, or as the end of a longer branch. */
    method TryAcceptBlock(block: Block) returns (o: Outcome)
      requires Valid() && Structured(block) && NoCollision(known, block) && block.hash != env.genesis.hash
      requires Hashing(env, known[block.hash := block])
      modifies this
      ensures Valid() && eternal == old(eternal) && Next(View(old(path), old(eternal)), View(path, eternal))
      ensures o == Verdict(env, old(store), old(path), eternal, block)
      ensures State(store, path) == After(env, State(old(store), old(path)), block, o)
      ensures known == if Follows(env, old(store), block) then old(known)[block.hash := block] else old(known)
      ensures path == old(path) ==>
                tail == old(tail) && longestChainHeight == old(longestChainHeight) && heights == old(heights) &&
                utxos == old(utxos) && txIndex == old(txIndex)
    {
      hide Structured, Hashing, Universe, GoodEnv, GoodPath, LedgerOf, IndexOf, HeightsOf, Kept, Final, Admissible,
           Next, AncestryHeld, ForkHeight, BranchPath, BranchHashes;
      SameNext(path, eternal);
      var parent := FindParent(block);
      if parent == None { return Invalid; }
      if block.height != parent.value.height + 1 { return Invalid; }
      NewlySeen(env, known, store, path, block, parent.value);
      known := known[block.hash := block];
      o := PlaceBlock(block);
    }

    /** The three cases: the block extends the main chain, a side chain, or makes a longer branch. */
    method PlaceBlock(block: Block) returns (o: Outcome)
      requires Valid() && Seen(known, block) && block != env.genesis && Follows(env, store, block)
      modifies `store, `heights, `tail, `longestChainHeight, `utxos, `txIndex, `path
      ensures Valid() && Next(View(old(path), eternal), View(path, eternal))
      ensures o == Verdict(env, old(store), old(path), eternal, block)
      ensures State(store, path) == After(env, State(old(store), old(path)), block, o)
    {
      hide Structured, Hashing, Universe, GoodEnv, GoodPath, LedgerOf, IndexOf, HeightsOf, Kept, Final, Admissible,
           Next, Follows, AncestryHeld, ForkHeight, BranchPath, BranchHashes, BranchVerdict;
      SameNext(path, eternal);
      ghost var start := path;
      if block.prev == tail.hash {
        var ok := Connect(block);
        if !ok { return Invalid; }
        ExtendNext(start, eternal, block);
        return Connected;
      }
      if block.height <= longestChainHeight {
        if block.height > eternal.height {
          StoreKept(known, store, path, block);
          store := store[block.hash := block];
          return OnSide;
        }
        return Expired;
      }
      o := Reorganize(block);
    }

    /** The parent of a block that may not have been seen. */
    method FindParent(block: Block) returns (parent: Option<Block>)
      requires Valid() && block.hash != env.genesis.hash
      ensures parent.Some? ==> Seen(known, parent.value) && parent.value.hash == block.prev
      ensures Follows(env, store, block) <==> parent.Some? && block.height == parent.value.height + 1
    {
      hide Structured, Hashing, GoodEnv, GoodPath, LedgerOf, IndexOf, HeightsOf, Final;
      if block.prev == env.genesis.hash { return Some(env.genesis); }
      if block.prev in store { return Some(store[block.prev]); }
      return None;
    }

    /** Makes a block eternal if it is above the eternal block and on the main chain. */
    method UpdateEternal(block: Block) returns (o: Outcome)
      requires Valid() && NoCollision(known, block)
      modifies `eternal
      ensures Valid() && Next(View(path, old(eternal)), View(path, eternal))
      ensures eternal == if old(eternal).height < block.height && OnPath(path, block) then block else old(eternal)
      ensures o == Panicked <==> block.height > old(eternal).height && block.height >= |path|
    {
      hide Structured, Hashing, GoodEnv, GoodPath, LedgerOf, IndexOf, Kept, Universe, HeightsOf;
      o := CheckEternal(block);
      if o != Connected { return; }
      var _ := SetEternal(block);
    }

    /** The tests of `updateEternal`: the block is above the eternal one, and on the main chain. */
    method CheckEternal(block: Block) returns (o: Outcome)
      requires Valid() && NoCollision(known, block)
      ensures o == Connected <==> eternal.height < block.height && OnPath(path, block)
      ensures o == Panicked <==> eternal.height < block.height && block.height >= |path|
    {
      hide Structured, Hashing, GoodEnv, GoodPath, LedgerOf, IndexOf;
      if block.height <= eternal.height { return Expired; }
      if block.height !in heights { return Panicked; }
      PathSeen(env, path, known, store, block.height);
      var b := store[heights[block.height]];
      if b.hash != block.hash { return OnSide; }
      o := Connected;
    }

    /** `SetEternal` looks at the height only: the chain stays in order exactly if the block is on the main
        chain when it is set. */
    method SetEternal(block: Block) returns (ok: bool)
      requires Valid()
      modifies `eternal
      ensures ok <==> old(eternal).height < block.height
      ensures eternal == if ok then block else old(eternal)
      ensures Valid() <==> !ok || OnPath(path, block)
    {
      hide Structured, Hashing, GoodEnv, GoodPath, LedgerOf, IndexOf, Kept, Universe, HeightsOf;
      if eternal.height >= block.height { return false; }
      eternal := block;
      ok := true;
    }
  }
}
