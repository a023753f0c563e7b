/** Main chains, side branches and runs of views: what the chain of `core/chain/blockchain.go` is about. */
module Paths {
  import opened BigEndian
  import opened Ledger
  import opened Freshness
  import opened UtxoSets
  import opened Supply
  import opened Validation

  /** What the chain starts from, and the judgement of consensus, scripts and state roots on a block. */
  datatype Env = Env(genesis: Block, base: Db, index: TxIndex, verify: Block -> bool, reward: nat -> nat)

  function Last(path: seq<Block>): Block
    requires |path| > 0
  {
    path[|path| - 1]
  }

  function Init(path: seq<Block>): seq<Block>
    requires |path| > 0
  {
    path[..|path| - 1]
  }

  // ---- The state that belongs to a main chain ----

  ghost function LedgerOf(env: Env, path: seq<Block>): Db {
    if |path| <= 1 then env.base else Run(LedgerOf(env, Init(path)), Last(path))
  }

  ghost function IndexOf(env: Env, path: seq<Block>): TxIndex {
    if |path| <= 1 then env.index else IndexOf(env, Init(path)) + BlockIndex(Last(path), |Last(path).txs|)
  }

  /** The height index, genesis excepted. */
  ghost function HeightsOf(path: seq<Block>): map<nat, Hash> {
    map h: nat | 0 < h < |path| :: path[h].hash
  }

  /** A block that may follow a main chain. */
  ghost predicate Admissible(env: Env, path: seq<Block>, b: Block)
    requires |path| > 0
  {
    b.prev == Last(path).hash && b.height == |path| && Structured(b) && Fresh(IndexOf(env, path), b) &&
    env.verify(b) && Accepted(LedgerOf(env, path), b, env.reward(|path| - 1))
  }

  ghost predicate GoodPath(env: Env, path: seq<Block>) {
    |path| > 0 && if |path| == 1 then path[0] == env.genesis
                  else GoodPath(env, Init(path)) && Admissible(env, Init(path), Last(path))
  }

  ghost predicate GoodEnv(env: Env) {
    Indexed(env.base, env.index) && Payable(env.base) && env.genesis.height == 0 &&
    Settled(env.base, env.index) && Dated(env) && forall h :: env.reward(h) < TWO_63
  }

  /** Consensus rebuilds the coinbase with the height of the block in it, so what it passes at two heights
      has different coinbases. */
  ghost predicate Dated(env: Env) {
    (forall a, b | env.verify(a) && env.verify(b) && SameCoinbase(a, b) :: a.height == b.height) &&
    forall b, h | env.verify(b) && h in env.index && |b.txs| > 0 && env.index[h].tx == b.txs[0] :: b.height == 0
  }

  ghost predicate SameCoinbase(a: Block, b: Block) {
    |a.txs| > 0 && |b.txs| > 0 && a.txs[0] == b.txs[0]
  }

  lemma {:induction false} PathFacts(env: Env, path: seq<Block>)
    requires GoodEnv(env) && GoodPath(env, path)
    ensures Indexed(LedgerOf(env, path), IndexOf(env, path)) && Payable(LedgerOf(env, path))
    ensures Settled(LedgerOf(env, path), IndexOf(env, path))
  {
    hide Indexed, Payable, Settled, Admissible, ValidBlock, Fresh, Readable, Balanced, Run, BlockIndex;
    if |path| > 1 {
      PathFacts(env, Init(path));
      AdmissibleValid(env, Init(path), Last(path));
      RunIndexed(LedgerOf(env, Init(path)), IndexOf(env, Init(path)), Last(path));
      RunPayable(LedgerOf(env, Init(path)), IndexOf(env, Init(path)), Last(path));
      RunSettled(LedgerOf(env, Init(path)), IndexOf(env, Init(path)), Last(path));
    }
  }

  lemma AdmissibleValid(env: Env, path: seq<Block>, b: Block)
    requires |path| > 0 && Admissible(env, path, b)
    ensures ValidBlock(LedgerOf(env, path), IndexOf(env, path), b) && Fresh(IndexOf(env, path), b)
    ensures forall i | 0 <= i < |b.txs| :: Readable(b.txs[i])
    ensures Balanced(LedgerOf(env, path), b, env.reward(|path| - 1))
  {
  }

  lemma {:induction false} PathHeights(env: Env, path: seq<Block>, i: nat)
    requires GoodEnv(env) && GoodPath(env, path) && i < |path|
    ensures path[i].height == i && path[0] == env.genesis
    ensures 0 < i ==> path[i].prev == path[i - 1].hash
    ensures GoodPath(env, path[..i + 1])
  {
    hide Accepted, Structured, GoodEnv, LedgerOf, IndexOf;
    if |path| == 1 {
      assert env.genesis.height == 0 by { GenesisHeight(env); }
      assert path[..1] == path;
    } else if i == |path| - 1 {
      assert path[..i + 1] == path;
      PathHeights(env, Init(path), 0);
    } else {
      PathHeights(env, Init(path), i);
      assert Init(path)[..i + 1] == path[..i + 1];
    }
  }

  lemma GenesisHeight(env: Env)
    requires GoodEnv(env)
    ensures env.genesis.height == 0
  {
  }

  // ---- Conservation along the main chain ----

  ghost function Rewards(env: Env, path: seq<Block>): nat {
    if |path| <= 1 then 0 else Rewards(env, Init(path)) + env.reward(|path| - 2)
  }

  ghost function DataOf(path: seq<Block>): nat {
    if |path| <= 1 then 0 else DataOf(Init(path)) + BlockData(Last(path), |Last(path).txs|)
  }

  /** On every main chain the unspent outputs are worth the start and all rewards, less the value put
      into data outputs. */
  lemma {:induction false} ChainSupply(env: Env, path: seq<Block>)
    requires GoodEnv(env) && GoodPath(env, path)
    ensures Total(LedgerOf(env, path)) + DataOf(path) == Total(env.base) + Rewards(env, path)
  {
    hide Total, BlockData, Admissible, GoodEnv;
    if |path| > 1 {
      ChainSupply(env, Init(path));
      SupplyStep(env, path);
    }
  }

  lemma SupplyStep(env: Env, path: seq<Block>)
    requires GoodEnv(env) && GoodPath(env, path) && |path| > 1
    ensures Total(LedgerOf(env, path)) + BlockData(Last(path), |Last(path).txs|) ==
            Total(LedgerOf(env, Init(path))) + env.reward(|path| - 2)
  {
    hide Total, Run, RoughSum, BlockData, Admissible, GoodEnv, GoodPath, LedgerOf, IndexOf, BlockIndex, Indexed,
         ValidBlock, Balanced, Fresh, Readable, Payable, Settled;
    var before, b := Init(path), Last(path);
    Shorten(env, path);
    PathFacts(env, before);
    AdmissibleValid(env, before, b);
    WithinLimits(env, before, b);
    ConservationWithinLimits(LedgerOf(env, before), IndexOf(env, before), b, env.reward(|before| - 1));
  }

  lemma WithinLimits(env: Env, path: seq<Block>, b: Block)
    requires GoodEnv(env) && |path| > 0 && Admissible(env, path, b)
    ensures RoughSum(b, |b.txs|) <= MAX_TXS_ROUGH_SIZE && env.reward(|path| - 1) < TWO_63
  {
    hide Shaped, TxChecked, Fresh, Accepted, Settled, Indexed, Payable;
  }

  // ---- Blocks ever seen ----

  /** Hashes do not collide: a hash stands for one block, whose parent was seen before it. */
  ghost predicate Universe(env: Env, known: map<Hash, Block>) {
    env.genesis.hash in known && known[env.genesis.hash] == env.genesis &&
    (forall h | h in known :: known[h].hash == h) &&
    forall h | h in known && h != env.genesis.hash :: Rooted(known, h)
  }

  ghost predicate Rooted(known: map<Hash, Block>, h: Hash)
    requires h in known
  {
    Structured(known[h]) && known[h].prev in known && known[h].height == known[known[h].prev].height + 1
  }

  ghost predicate Seen(known: map<Hash, Block>, b: Block) {
    b.hash in known && known[b.hash] == b
  }

  /** Transaction hashes do not collide. */
  ghost predicate Hashing(env: Env, known: map<Hash, Block>) {
    (forall h | h in known && h != env.genesis.hash :: Agrees(env.index, known[h])) &&
    forall h, k | h in known && k in known && h != env.genesis.hash && k != env.genesis.hash ::
      Alike(known[h], known[k])
  }

  /** Neither do they against the transactions of a main chain, and what consensus passes on top of it has a
      new coinbase. */
  lemma {:induction false} PathAgrees(env: Env, path: seq<Block>, known: map<Hash, Block>, b: Block)
    requires GoodEnv(env) && GoodPath(env, path) && Hashing(env, known)
    requires forall i | 0 < i < |path| :: Seen(known, path[i]) && path[i].hash != env.genesis.hash
    requires Seen(known, b) && b.hash != env.genesis.hash && Shaped(b)
    ensures Agrees(IndexOf(env, path), b)
    ensures env.verify(b) && b.height >= |path| ==> b.txs[0].hash !in IndexOf(env, path)
  {
    hide Agrees, Alike, Accepted, Fresh, BlockIndex, Settled, Indexed, Payable, Shaped, TxChecked, RoughSum, Hashing,
         GoodEnv, Dated;
    if |path| > 1 {
      PathAgrees(env, Init(path), known, b);
      PairAlike(env, known, Last(path), b);
      AgreesAfter(IndexOf(env, Init(path)), Last(path), b);
      NewCoinbase(env, IndexOf(env, Init(path)), Last(path), b);
    } else {
      StartAgrees(env, known, b);
    }
  }

  lemma PairAlike(env: Env, known: map<Hash, Block>, a: Block, b: Block)
    requires Hashing(env, known) && Seen(known, a) && Seen(known, b)
    requires a.hash != env.genesis.hash && b.hash != env.genesis.hash && Shaped(a)
    ensures Alike(a, b) && DistinctHashes(a)
  {
  }

  lemma StartAgrees(env: Env, known: map<Hash, Block>, b: Block)
    requires GoodEnv(env) && Hashing(env, known) && Seen(known, b) && b.hash != env.genesis.hash && Shaped(b)
    ensures Agrees(env.index, b)
    ensures env.verify(b) && b.height >= 1 ==> b.txs[0].hash !in env.index
  {
    hide Settled, Indexed, Payable, NoDoubleSpend, NoSelfSpend;
  }

  lemma NewCoinbase(env: Env, index: TxIndex, a: Block, b: Block)
    requires GoodEnv(env) && env.verify(a) && Shaped(a) && Shaped(b) && Alike(a, b)
    requires env.verify(b) && b.height > a.height ==> b.txs[0].hash !in index
    ensures env.verify(b) && b.height > a.height ==> b.txs[0].hash !in index + BlockIndex(a, |a.txs|)
  {
    hide Settled, Indexed, Payable, NoDoubleSpend, NoSelfSpend, Alike, BlockIndex, DistinctHashes;
    if env.verify(b) && b.height > a.height {
      assert !SameCoinbase(a, b);
      if b.txs[0].hash in index + BlockIndex(a, |a.txs|) {
        CoinbaseAfter(index, a, b);
      }
    }
  }

  // ---- Finality ----

  /** What a run shows of the chain: the main chain and its eternal block. */
  datatype View = View(path: seq<Block>, eternal: Block)

  ghost predicate OnPath(path: seq<Block>, b: Block) {
    b.height < |path| && path[b.height] == b
  }

  ghost predicate Final(v: View) {
    OnPath(v.path, v.eternal)
  }

  /** A step either changes blocks above the eternal one, or moves the eternal block up the main chain. */
  ghost predicate Next(v: View, v': View) {
    Final(v) &&
    ((v'.eternal == v.eternal && v.eternal.height < |v'.path| &&
      v'.path[..v.eternal.height + 1] == v.path[..v.eternal.height + 1]) ||
     (v'.path == v.path && v.eternal.height < v'.eternal.height && Final(v')))
  }

  ghost predicate IsRun(run: seq<View>) {
    |run| > 0 && Final(run[0]) && forall i | 0 < i < |run| :: Next(run[i - 1], run[i])
  }

  /** A block once eternal stays on the main chain, and a later eternal block is above it. */
  lemma {:induction false} Finality(run: seq<View>, i: nat, j: nat)
    requires IsRun(run) && i <= j < |run|
    ensures Final(run[i]) && Final(run[j]) && run[i].eternal.height <= run[j].eternal.height
    ensures run[i].eternal != run[j].eternal ==> run[i].eternal.height < run[j].eternal.height
    ensures run[j].path[..run[i].eternal.height + 1] == run[i].path[..run[i].eternal.height + 1]
    decreases j
  {
    if 0 < j {
      assert Next(run[j - 1], run[j]);
      if i < j {
        Finality(run, i, j - 1);
        PrefixOf(run[j - 1].path, run[j].path, run[i].eternal.height + 1, run[j - 1].eternal.height + 1);
      }
    }
  }

  lemma PrefixOf(p: seq<Block>, q: seq<Block>, m: nat, n: nat)
    requires m <= n && n <= |p| && (p == q || (n <= |q| && p[..n] == q[..n]))
    ensures m <= |q| && p[..m] == q[..m]
  {
    if n <= |q| && p[..n] == q[..n] {
      assert p[..m] == p[..n][..m];
    }
  }

  // ---- The chain ----

  datatype Fork = Fork(point: Block, detach: seq<Block>, attach: seq<Block>)

  datatype Outcome =
    Connected | Switched | RolledBack | Expired | OnSide | Dropped | Invalid | Panicked | Exists | Malformed | Orphan

  /** The blocks of a branch from its lowest up to position k. */
  ghost function Upward(attach: seq<Block>, k: nat): seq<Block>
    requires k <= |attach|
    decreases |attach| - k
  {
    if k == |attach| then [] else Upward(attach, k + 1) + [attach[k]]
  }

  /** Each block is the parent of the one before it, and the last has the given parent. */
  ghost predicate Climbs(known: map<Hash, Block>, attach: seq<Block>, block: Block, parent: Block) {
    (forall k | 0 <= k < |attach| :: Seen(known, attach[k]) && attach[k].height == block.height - k) &&
    (forall k | 0 < k < |attach| :: attach[k - 1].prev == attach[k].hash) &&
    Seen(known, parent) && parent.height == block.height - |attach| &&
    if |attach| == 0 then parent == block else attach[0] == block && attach[|attach| - 1].prev == parent.hash
  }

  /** The fork point is on both chains, and is the highest such block. */
  ghost predicate IsFork(path: seq<Block>, known: map<Hash, Block>, block: Block, f: Fork) {
    f.point.height < |path| && path[f.point.height] == f.point &&
    |f.detach| == |path| - 1 - f.point.height && |f.attach| > |f.detach| &&
    (forall k | 0 <= k < |f.detach| :: f.detach[k] == path[|path| - 1 - k]) &&
    Climbs(known, f.attach, block, f.point) &&
    forall k | 0 <= k < |f.attach| && f.attach[k].height < |path| :: f.attach[k] != path[f.attach[k].height]
  }

  /** Stored blocks have been seen, and the main chain is stored. */
  ghost predicate Kept(known: map<Hash, Block>, store: map<Hash, Block>, path: seq<Block>) {
    (forall h | h in store :: h in known && store[h] == known[h]) &&
    forall i | 0 < i < |path| :: path[i].hash in store && store[path[i].hash] == path[i]
  }

  /** No seen block has this block's hash but another content. */
  ghost predicate NoCollision(known: map<Hash, Block>, b: Block) {
    b.hash in known ==> known[b.hash] == b
  }

  // ---- Branches ----

  predicate Held(env: Env, store: map<Hash, Block>, h: Hash) {
    h in store || h == env.genesis.hash
  }

  function ParentIn(env: Env, store: map<Hash, Block>, b: Block): Block
    requires Held(env, store, b.prev)
  {
    if b.prev == env.genesis.hash then env.genesis else store[b.prev]
  }

  /** The parent is held, and the block is one higher. */
  predicate Follows(env: Env, store: map<Hash, Block>, b: Block) {
    Held(env, store, b.prev) && b.height == ParentIn(env, store, b).height + 1
  }

  /** Every ancestor of the block is held down to the first one on the main chain. */
  ghost predicate AncestryHeld(env: Env, store: map<Hash, Block>, path: seq<Block>, b: Block)
    decreases b.height
  {
    OnPath(path, b) || (Follows(env, store, b) && AncestryHeld(env, store, path, ParentIn(env, store, b)))
  }

  /** The height of the first ancestor on the main chain. */
  ghost function ForkHeight(env: Env, store: map<Hash, Block>, path: seq<Block>, b: Block): (h: nat)
    requires AncestryHeld(env, store, path, b)
    ensures h <= b.height && h < |path|
    decreases b.height
  {
    if OnPath(path, b) then b.height else ForkHeight(env, store, path, ParentIn(env, store, b))
  }

  /** The chain from genesis that ends in the block. */
  ghost function BranchPath(env: Env, store: map<Hash, Block>, path: seq<Block>, b: Block): (p: seq<Block>)
    requires AncestryHeld(env, store, path, b)
    ensures |p| == b.height + 1 && p[b.height] == b
    decreases b.height
  {
    if OnPath(path, b) then path[..b.height + 1] else BranchPath(env, store, path, ParentIn(env, store, b)) + [b]
  }

  /** The hashes of the block and its ancestors that are not on the main chain. */
  ghost function BranchHashes(env: Env, store: map<Hash, Block>, path: seq<Block>, b: Block): set<Hash>
    requires AncestryHeld(env, store, path, b)
    decreases b.height
  {
    if OnPath(path, b) then {} else BranchHashes(env, store, path, ParentIn(env, store, b)) + {b.hash}
  }

  /** A switch to the branch keeps a block of the main chain exactly if it forks at or above it. */
  lemma {:induction false} SwitchKeeps(env: Env, store: map<Hash, Block>, path: seq<Block>, b: Block, a: Block)
    requires AncestryHeld(env, store, path, b) && OnPath(path, a)
    ensures var f := ForkHeight(env, store, path, b);
            BranchPath(env, store, path, b)[..f + 1] == path[..f + 1] &&
            (OnPath(BranchPath(env, store, path, b), a) <==> a.height <= f)
    decreases b.height
  {
    if !OnPath(path, b) {
      var parent := ParentIn(env, store, b);
      SwitchKeeps(env, store, path, parent, a);
      var f, p := ForkHeight(env, store, path, b), BranchPath(env, store, path, parent);
      assert (p + [b])[..f + 1] == p[..f + 1];
    }
  }

  // ---- The verdict on a block ----

  ghost function BranchVerdict(env: Env, store: map<Hash, Block>, path: seq<Block>, eternal: Block, b: Block): Outcome {
    if !AncestryHeld(env, store, path, b) then Panicked
    else if ForkHeight(env, store, path, b) < eternal.height then Dropped
    else if GoodPath(env, BranchPath(env, store, path, b)) then Switched
    else RolledBack
  }

  ghost function Verdict(env: Env, store: map<Hash, Block>, path: seq<Block>, eternal: Block, b: Block): Outcome {
    if |path| == 0 || !Follows(env, store, b) then Invalid
    else if b.prev == Last(path).hash then if Admissible(env, path, b) then Connected else Invalid
    else if b.height < |path| then if b.height > eternal.height then OnSide else Expired
    else BranchVerdict(env, store, path, eternal, b)
  }

  /** What accepting blocks changes. */
  datatype State = State(store: map<Hash, Block>, path: seq<Block>)

  /** The stored blocks and the main chain after a verdict on a block. */
  ghost function After(env: Env, s: State, b: Block, o: Outcome): State {
    if o == Connected then State(s.store[b.hash := b], s.path + [b])
    else if o == OnSide then s.(store := s.store[b.hash := b])
    else if !AncestryHeld(env, s.store, s.path, b) then s
    else if o == Switched then State(s.store[b.hash := b], BranchPath(env, s.store, s.path, b))
    else if o == Dropped then s.(store := s.store - BranchHashes(env, s.store, s.path, b))
    else s
  }

  // ---- Walking down a branch ----

  /** The blocks walked over lead from the block down to `side`. */
  ghost predicate Walked(env: Env, store: map<Hash, Block>, path: seq<Block>, block: Block, attach: seq<Block>,
                         side: Block)
  {
    (forall k | 0 < k < |attach| :: InStore(store, attach[k])) &&
    (if |attach| == 0 then side == block else side == env.genesis || InStore(store, side)) &&
    (AncestryHeld(env, store, path, block) <==> AncestryHeld(env, store, path, side)) &&
    (AncestryHeld(env, store, path, side) ==>
       ForkHeight(env, store, path, block) == ForkHeight(env, store, path, side) &&
       BranchPath(env, store, path, block) == BranchPath(env, store, path, side) + Upward(attach, 0) &&
       BranchHashes(env, store, path, block) == BranchHashes(env, store, path, side) + HashesOf(attach))
  }

  ghost function HashesOf(attach: seq<Block>): set<Hash> {
    set b | b in attach :: b.hash
  }

  lemma WalkStart(env: Env, store: map<Hash, Block>, path: seq<Block>, block: Block)
    ensures Walked(env, store, path, block, [], block)
  {
    hide AncestryHeld, ForkHeight, BranchPath, BranchHashes;
    assert Upward([], 0) == [] && HashesOf([]) == {};
  }

  /** One step down from a block that is not on the main chain. */
  lemma WalkStep(env: Env, store: map<Hash, Block>, path: seq<Block>, block: Block, attach: seq<Block>, side: Block,
                 parent: Option<Block>)
    requires Walked(env, store, path, block, attach, side) && !OnPath(path, side) && side != env.genesis
    requires parent == None ==> !Held(env, store, side.prev)
    requires parent.Some? ==> Follows(env, store, side) && parent.value == ParentIn(env, store, side)
    requires parent.Some? ==> parent.value == env.genesis || InStore(store, parent.value)
    ensures parent == None ==> !AncestryHeld(env, store, path, block)
    ensures parent.Some? ==> Walked(env, store, path, block, attach + [side], parent.value)
  {
    hide Held, Follows, ParentIn, OnPath;
    if parent.Some? {
      UpwardFirst(attach, side, 0);
      HashesOfLast(attach, side);
      if AncestryHeld(env, store, path, parent.value) {
        var p := BranchPath(env, store, path, parent.value);
        assert (p + [side]) + Upward(attach, 0) == p + ([side] + Upward(attach, 0));
      }
    } else {
      Unfollowed(env, store, side);
    }
  }

  lemma Unfollowed(env: Env, store: map<Hash, Block>, b: Block)
    requires !Held(env, store, b.prev)
    ensures !Follows(env, store, b)
  {
  }

  /** Down at the main chain the walk has found the fork. */
  lemma WalkEnd(env: Env, store: map<Hash, Block>, path: seq<Block>, block: Block, attach: seq<Block>, side: Block)
    requires Walked(env, store, path, block, attach, side) && OnPath(path, side)
    ensures AncestryHeld(env, store, path, block) && ForkHeight(env, store, path, block) == side.height
    ensures BranchPath(env, store, path, block) == path[..side.height + 1] + Upward(attach, 0)
    ensures BranchHashes(env, store, path, block) == HashesOf(attach)
    ensures forall k | 0 < k < |attach| :: InStore(store, attach[k])
  {
  }

  lemma {:induction false} UpwardFirst(attach: seq<Block>, b: Block, k: nat)
    requires k <= |attach|
    ensures Upward(attach + [b], k) == [b] + Upward(attach, k)
    decreases |attach| - k
  {
    if k < |attach| {
      UpwardFirst(attach, b, k + 1);
      assert ([b] + Upward(attach, k + 1)) + [attach[k]] == [b] + (Upward(attach, k + 1) + [attach[k]]);
    } else {
      assert Upward(attach + [b], k) == [] + [b];
    }
  }

  lemma HashesOfLast(attach: seq<Block>, b: Block)
    ensures HashesOf(attach + [b]) == HashesOf(attach) + {b.hash}
  {
  }

  // ---- The eternal block checked first and set later ----

  /** Each state is the one before with the next block accepted. */
  ghost predicate Accepts(env: Env, eternal: Block, run: seq<State>, blocks: seq<Block>) {
    |run| == |blocks| + 1 && forall i | 0 <= i < |blocks| :: Offered(env, eternal, run[i], blocks[i]) == run[i + 1]
  }

  ghost function Offered(env: Env, eternal: Block, s: State, b: Block): State {
    After(env, s, b, Verdict(env, s.store, s.path, eternal, b))
  }

  /** Accepting the block switches to a branch that leaves the main chain below a height. */
  ghost predicate ForksBelow(env: Env, eternal: Block, s: State, b: Block, height: nat) {
    Verdict(env, s.store, s.path, eternal, b) == Switched && ForkHeight(env, s.store, s.path, b) < height
  }

  /** One accepted block takes a block off the main chain exactly if it switches to a branch that forks
      below that block. */
  lemma AcceptKeeps(env: Env, eternal: Block, s: State, b: Block, a: Block)
    requires OnPath(s.path, a)
    ensures OnPath(Offered(env, eternal, s, b).path, a) <==> !ForksBelow(env, eternal, s, b, a.height)
  {
    hide GoodPath, Admissible, AncestryHeld, ForkHeight, BranchPath, BranchHashes;
    if Verdict(env, s.store, s.path, eternal, b) == Switched {
      SwitchKeeps(env, s.store, s.path, b, a);
    }
  }

  /** None of the first n blocks switches to a branch that leaves the main chain below a height. */
  ghost predicate NoneBelow(env: Env, eternal: Block, run: seq<State>, blocks: seq<Block>, height: nat, n: nat)
    requires Accepts(env, eternal, run, blocks) && n <= |blocks|
  {
    forall i | 0 <= i < n :: !ForksBelow(env, eternal, run[i], blocks[i], height)
  }

  /** Between the check that a block is on the main chain and making it eternal, other blocks are accepted.
      As long as none of them switches to a branch that forks below it the block may be made eternal; the
      first that does takes it off the main chain. */
  lemma {:induction false} SplitUpdate(env: Env, eternal: Block, run: seq<State>, blocks: seq<Block>, a: Block, n: nat)
    requires Accepts(env, eternal, run, blocks) && OnPath(run[0].path, a) && n <= |blocks|
    requires NoneBelow(env, eternal, run, blocks, a.height, n)
    ensures Final(View(run[n].path, a))
    ensures n < |blocks| ==>
              (Final(View(run[n + 1].path, a)) <==> NoneBelow(env, eternal, run, blocks, a.height, n + 1))
    decreases n
  {
    hide Offered, ForksBelow, OnPath;
    if n > 0 {
      SplitUpdate(env, eternal, run, blocks, a, n - 1);
    }
    if n < |blocks| {
      AcceptKeeps(env, eternal, run[n], blocks[n], a);
      assert Offered(env, eternal, run[n], blocks[n]) == run[n + 1];
    }
  }

  /** A seen block on top of the main chain is fit to be executed, and once funded it repeats nothing. */
  lemma Ready(env: Env, path: seq<Block>, known: map<Hash, Block>, store: map<Hash, Block>, b: Block)
    requires GoodEnv(env) && GoodPath(env, path) && Universe(env, known) && Hashing(env, known)
    requires Kept(known, store, path)
    requires Seen(known, b) && b != env.genesis && b.prev == Last(path).hash
    ensures b.height == |path| && Structured(b) && Shaped(b)
    ensures env.verify(b) && Funded(LedgerOf(env, path), b) ==> Fresh(IndexOf(env, path), b)
    ensures forall i | 0 <= i < |b.txs| :: TxOutTotal(b.txs[i]) <= TOTAL_SUPPLY
    ensures Indexed(LedgerOf(env, path), IndexOf(env, path)) && Payable(LedgerOf(env, path))
  {
    hide LedgerOf, IndexOf, Fresh, Indexed, TxOutTotal, Shaped, Admissible, GoodEnv, GoodPath, Universe, Hashing, Kept,
         Funded, Payable, Settled, Agrees, RoughSum, Unfunded, IsNull, AllHaveInputs;
    PathFacts(env, path);
    assert |path| > 0 by { Nonempty(env, path); }
    PathSeen(env, path, known, store, |path| - 1);
    SeenAbove(env, known, Last(path), b);
    forall i | 0 < i < |path| ensures Seen(known, path[i]) && path[i].hash != env.genesis.hash {
      PathSeen(env, path, known, store, i);
      NamedApart(env, known, path[i]);
    }
    NamedApart(env, known, b);
    PathAgrees(env, path, known, b);
    assert |b.txs| > 0 && AllHaveInputs(b) by { InputsOf(b); }
    if env.verify(b) {
      FundedIsFresh(LedgerOf(env, path), IndexOf(env, path), b);
    }
  }

  lemma Nonempty(env: Env, path: seq<Block>)
    requires GoodPath(env, path)
    ensures |path| > 0
  {
  }

  lemma InputsOf(b: Block)
    requires Structured(b)
    ensures |b.txs| > 0 && AllHaveInputs(b)
  {
    hide TxOutTotal, RoughSum;
  }

  lemma SeenAbove(env: Env, known: map<Hash, Block>, parent: Block, b: Block)
    requires Universe(env, known) && Seen(known, b) && Seen(known, parent) && b != env.genesis && b.prev == parent.hash
    ensures b.height == parent.height + 1 && Structured(b)
  {
    hide Structured;
  }

  lemma NamedApart(env: Env, known: map<Hash, Block>, b: Block)
    requires Universe(env, known) && Seen(known, b) && b != env.genesis
    ensures b.hash != env.genesis.hash
  {
    hide Structured;
  }

  /** Growing a main chain by an admissible block. */
  lemma Extend(env: Env, path: seq<Block>, b: Block)
    requires GoodPath(env, path) && Admissible(env, path, b)
    ensures GoodPath(env, path + [b])
    ensures LedgerOf(env, path + [b]) == Run(LedgerOf(env, path), b)
    ensures IndexOf(env, path + [b]) == IndexOf(env, path) + BlockIndex(b, |b.txs|)
  {
    hide Admissible, Run, BlockIndex;
    assert Init(path + [b]) == path && Last(path + [b]) == b;
  }

  lemma ExtendKept(known: map<Hash, Block>, store: map<Hash, Block>, path: seq<Block>, b: Block)
    requires Kept(known, store, path) && Seen(known, b)
    ensures Kept(known, store[b.hash := b], path + [b])
  {
  }

  lemma ExtendFinal(path: seq<Block>, eternal: Block, b: Block)
    requires Final(View(path, eternal))
    ensures Final(View(path + [b], eternal))
  {
  }

  lemma ExtendHeights(path: seq<Block>, b: Block)
    requires |path| > 0
    ensures HeightsOf(path + [b]) == HeightsOf(path)[|path| := b.hash]
  {
  }

  /** Taking the last block off a main chain. */
  lemma Shorten(env: Env, path: seq<Block>)
    requires GoodPath(env, path) && |path| > 1
    ensures GoodPath(env, Init(path)) && Admissible(env, Init(path), Last(path))
    ensures LedgerOf(env, path) == Run(LedgerOf(env, Init(path)), Last(path))
    ensures IndexOf(env, path) == IndexOf(env, Init(path)) + BlockIndex(Last(path), |Last(path).txs|)
  {
    hide Admissible, Run, BlockIndex;
  }

  lemma ShortenHeights(path: seq<Block>)
    requires |path| > 0
    ensures HeightsOf(Init(path)) == HeightsOf(path) - {|path| - 1}
  {
  }

  /** The state of a main chain without its last block, and how to get back to it. */
  lemma BeforeTail(env: Env, path: seq<Block>)
    requires GoodEnv(env) && GoodPath(env, path) && |path| > 1
    ensures var before, b := Init(path), Last(path);
            var l, index := LedgerOf(env, before), IndexOf(env, before);
            GoodPath(env, before) && ValidBlock(l, index, b) && Indexed(l, index) && Payable(l) &&
            (forall i | 0 <= i < |b.txs| :: Readable(b.txs[i])) &&
            LedgerOf(env, path) == Run(l, b) && IndexOf(env, path) == index + BlockIndex(b, |b.txs|) &&
            IndexOf(env, path) - Hashes(b, |b.txs|) == index &&
            HeightsOf(before) == HeightsOf(path) - {|path| - 1}
  {
    hide GoodEnv, GoodPath, Admissible, LedgerOf, IndexOf, HeightsOf, Run, BlockIndex, ValidBlock, Indexed, Payable,
         Fresh;
    Shorten(env, path);
    ShortenHeights(path);
    PathFacts(env, Init(path));
    AdmissibleValid(env, Init(path), Last(path));
    Unindexed(IndexOf(env, Init(path)), Last(path));
  }

  lemma ShortenKept(known: map<Hash, Block>, store: map<Hash, Block>, path: seq<Block>)
    requires Kept(known, store, path) && |path| > 0
    ensures Kept(known, store, Init(path))
  {
  }

  lemma ShortenFinal(path: seq<Block>, eternal: Block)
    requires Final(View(path, eternal)) && eternal.height < |path| - 1
    ensures Final(View(Init(path), eternal))
  {
  }

  lemma Unindexed(index: TxIndex, b: Block)
    requires Fresh(index, b)
    ensures (index + BlockIndex(b, |b.txs|)) - Hashes(b, |b.txs|) == index
  {
    BlockIndexKeys(b, |b.txs|);
  }

  lemma PathSeen(env: Env, path: seq<Block>, known: map<Hash, Block>, store: map<Hash, Block>, i: nat)
    requires GoodEnv(env) && GoodPath(env, path) && Universe(env, known) && Kept(known, store, path) && i < |path|
    ensures Seen(known, path[i]) && path[i].height == i && (path[i] == env.genesis <==> i == 0)
    ensures 0 < i ==> path[i].prev == path[i - 1].hash
  {
    hide Admissible, Structured;
    PathHeights(env, path, i);
  }

  /** The parent of a block of the main chain is found. */
  lemma ParentFound(env: Env, path: seq<Block>, known: map<Hash, Block>, store: map<Hash, Block>, i: nat)
    requires GoodEnv(env) && GoodPath(env, path) && Universe(env, known) && Kept(known, store, path) && 0 < i < |path|
    ensures Held(env, store, path[i].prev) && ParentIn(env, store, path[i]) == path[i - 1]
  {
    hide Admissible, Structured, GoodPath, GoodEnv;
    PathSeen(env, path, known, store, i);
    PathSeen(env, path, known, store, i - 1);
  }

  predicate InStore(store: map<Hash, Block>, b: Block) {
    b.hash in store && store[b.hash] == b
  }

  lemma ClimbStart(known: map<Hash, Block>, block: Block)
    requires Seen(known, block)
    ensures Climbs(known, [], block, block)
  {
  }

  lemma HighApart(path: seq<Block>, known: map<Hash, Block>, attach: seq<Block>, block: Block, side: Block)
    requires Climbs(known, attach, block, side) && |path| > 0 && side.height == |path| - 1
    ensures Apart(path, attach, |path| - 1) && |attach| == block.height - (|path| - 1)
  {
  }

  lemma NotGenesis(env: Env, b: Block)
    requires GoodEnv(env) && b.height > 0
    ensures b != env.genesis
  {
  }

  /** Two seen blocks of one height with different hashes are not genesis. */
  lemma Alone(env: Env, known: map<Hash, Block>, a: Block, b: Block)
    requires GoodEnv(env) && Universe(env, known) && Seen(known, a) && Seen(known, b)
    requires a.height == b.height && a.hash != b.hash
    ensures a.height > 0 && a != env.genesis && b != env.genesis
  {
  }

  lemma ClimbStep(env: Env, known: map<Hash, Block>, store: map<Hash, Block>, attach: seq<Block>, block: Block,
                  side: Block, parent: Option<Block>)
    requires Climbs(known, attach, block, side) && side != env.genesis
    requires parent.Some? ==>
               Seen(known, parent.value) && parent.value.hash == side.prev && parent.value.height + 1 == side.height
    ensures parent.Some? ==> Climbs(known, attach + [side], block, parent.value)
  {
  }

  /** One step down a branch, in both its descriptions. */
  lemma Down(env: Env, known: map<Hash, Block>, store: map<Hash, Block>, path: seq<Block>, attach: seq<Block>,
             block: Block, side: Block, parent: Option<Block>)
    requires Climbs(known, attach, block, side) && Walked(env, store, path, block, attach, side)
    requires side != env.genesis && !OnPath(path, side)
    requires parent.Some? <==> Held(env, store, side.prev)
    requires parent.Some? ==>
               Follows(env, store, side) && parent.value == ParentIn(env, store, side) && Seen(known, parent.value) &&
               parent.value.hash == side.prev && (parent.value == env.genesis || InStore(store, parent.value))
    ensures parent == None ==> !AncestryHeld(env, store, path, block)
    ensures parent.Some? ==>
              Climbs(known, attach + [side], block, parent.value) && parent.value.height + 1 == side.height &&
              Walked(env, store, path, block, attach + [side], parent.value)
  {
    hide Climbs, Walked, AncestryHeld, InStore;
    WalkStep(env, store, path, block, attach, side, parent);
    ClimbStep(env, known, store, attach, block, side, parent);
  }

  /** The fork is that of the block's branch. */
  ghost predicate IsBranch(env: Env, store: map<Hash, Block>, path: seq<Block>, block: Block, f: Fork) {
    f.point.height < |path| && AncestryHeld(env, store, path, block) &&
    ForkHeight(env, store, path, block) == f.point.height &&
    BranchPath(env, store, path, block) == path[..f.point.height + 1] + Upward(f.attach, 0) &&
    BranchHashes(env, store, path, block) == HashesOf(f.attach) &&
    forall k | 0 < k < |f.attach| :: InStore(store, f.attach[k])
  }

  lemma BranchFound(env: Env, store: map<Hash, Block>, path: seq<Block>, block: Block, f: Fork)
    requires Walked(env, store, path, block, f.attach, f.point) && OnPath(path, f.point)
    ensures IsBranch(env, store, path, block, f) && AncestryHeld(env, store, path, block)
  {
    hide Walked, AncestryHeld, ForkHeight, BranchPath, BranchHashes, HashesOf, Upward;
    WalkEnd(env, store, path, block, f.attach, f.point);
  }

  lemma AdmissibleIf(env: Env, path: seq<Block>, b: Block)
    requires |path| > 0 && b.prev == Last(path).hash && b.height == |path| && Structured(b)
    requires env.verify(b) && Funded(LedgerOf(env, path), b) ==> Fresh(IndexOf(env, path), b)
    ensures Admissible(env, path, b) <==> env.verify(b) && Accepted(LedgerOf(env, path), b, env.reward(|path| - 1))
  {
    hide Structured, Funded, Fresh, LedgerOf, IndexOf, Balanced, Readable;
  }

  lemma KeptBlock(known: map<Hash, Block>, store: map<Hash, Block>, path: seq<Block>, i: nat)
    requires Kept(known, store, path) && 0 < i < |path|
    ensures InStore(store, path[i]) && Seen(known, path[i])
  {
  }

  lemma NoHashes(attach: seq<Block>)
    ensures HashesOf(attach[..0]) == {}
  {
  }

  lemma SelfAlike(env: Env, known: map<Hash, Block>, b: Block)
    requires Hashing(env, known[b.hash := b]) && b.hash != env.genesis.hash
    ensures Alike(b, b)
  {
    assert known[b.hash := b][b.hash] == b;
  }

  /** The blocks of the branch down to a height are not on the main chain. */
  ghost predicate Apart(path: seq<Block>, attach: seq<Block>, height: nat) {
    forall k | 0 <= k < |attach| && attach[k].height < |path| :: attach[k] != path[attach[k].height]
  }

  lemma ApartStep(path: seq<Block>, attach: seq<Block>, height: nat, side: Block)
    requires Apart(path, attach, height) && height < |path| && side.height == height && side.hash != path[height].hash
    ensures Apart(path, attach + [side], height)
  {
  }

  lemma ForkFound(path: seq<Block>, known: map<Hash, Block>, block: Block, f: Fork)
    requires f.point.height < |path| && path[f.point.height] == f.point
    requires |f.detach| == |path| - 1 - f.point.height && block.height >= |path|
    requires forall k | 0 <= k < |f.detach| :: f.detach[k] == path[|path| - 1 - k]
    requires Climbs(known, f.attach, block, f.point) && Apart(path, f.attach, f.point.height)
    ensures IsFork(path, known, block, f)
  {
  }

  lemma SameNext(path: seq<Block>, eternal: Block)
    requires Final(View(path, eternal))
    ensures Next(View(path, eternal), View(path, eternal))
  {
  }

  lemma AboveEternal(start: seq<Block>, path: seq<Block>, eternal: Block, fork: nat)
    requires Final(View(start, eternal)) && eternal.height <= fork < |start|
    requires fork < |path| && path[..fork + 1] == start[..fork + 1]
    ensures Next(View(start, eternal), View(path, eternal))
  {
    assert path[..eternal.height + 1] == path[..fork + 1][..eternal.height + 1];
    assert start[..eternal.height + 1] == start[..fork + 1][..eternal.height + 1];
  }

  lemma ForkFacts(env: Env, path: seq<Block>, known: map<Hash, Block>, block: Block, f: Fork)
    requires IsFork(path, known, block, f)
    ensures Climbs(known, f.attach, block, f.point) && f.point.height < |path| && |f.attach| > 0 && f.attach[0] == block
    ensures Last(path[..f.point.height + 1]) == f.point
  {
  }

  /** A block of a main chain is admissible on the part below it. */
  lemma StillAdmissible(env: Env, path: seq<Block>, m: nat)
    requires GoodEnv(env) && GoodPath(env, path) && 0 < m < |path|
    ensures Admissible(env, path[..m], path[m]) && path[m].height == m && path[m].prev == path[m - 1].hash
  {
    hide Admissible, GoodEnv;
    PathHeights(env, path, m);
    assert Init(path[..m + 1]) == path[..m] && Last(path[..m + 1]) == path[m];
  }

  lemma {:induction false} UpwardPrefix(attach: seq<Block>, k: nat)
    requires k <= |attach|
    ensures |Upward(attach, 0)| == |attach| && |Upward(attach, k)| == |attach| - k
    ensures Upward(attach, 0)[..|attach| - k] == Upward(attach, k)
    decreases k
  {
    if k == 0 {
      UpwardLength(attach, 0);
    } else {
      UpwardPrefix(attach, k - 1);
      UpwardLength(attach, k);
      assert Upward(attach, k - 1)[..|attach| - k] == Upward(attach, k);
    }
  }

  lemma {:induction false} UpwardLength(attach: seq<Block>, k: nat)
    requires k <= |attach|
    ensures |Upward(attach, k)| == |attach| - k
    decreases |attach| - k
  {
    if k < |attach| {
      UpwardLength(attach, k + 1);
    }
  }

  /** A branch with a refused block is no main chain. */
  lemma RefusedIsBad(env: Env, base: seq<Block>, attach: seq<Block>, k: nat)
    requires GoodEnv(env) && |base| > 0 && 0 < k <= |attach|
    requires !Admissible(env, base + Upward(attach, k), attach[k - 1])
    ensures !GoodPath(env, base + Upward(attach, 0))
  {
    hide Admissible, GoodEnv, GoodPath;
    var whole, m := base + Upward(attach, 0), |base| + |attach| - k;
    UpwardPrefix(attach, k);
    UpwardPrefix(attach, k - 1);
    assert whole[..m] == base + Upward(attach, k);
    assert whole[m] == attach[k - 1] by {
      assert Upward(attach, k - 1)[|attach| - k] == attach[k - 1];
      assert whole[m] == Upward(attach, 0)[|attach| - k];
    }
    if GoodPath(env, whole) {
      StillAdmissible(env, whole, m);
    }
  }

  lemma Hashed(attach: seq<Block>, i: nat)
    requires i < |attach|
    ensures HashesOf(attach[..i + 1]) == HashesOf(attach[..i]) + {attach[i].hash}
  {
    assert attach[..i + 1] == attach[..i] + [attach[i]];
  }

  lemma KeptWithout(env: Env, path: seq<Block>, known: map<Hash, Block>, store: map<Hash, Block>, block: Block, f: Fork)
    requires GoodEnv(env) && GoodPath(env, path) && Kept(known, store, path) && IsFork(path, known, block, f)
    ensures Kept(known, store - HashesOf(f.attach), path)
  {
    hide GoodEnv, GoodPath;
    forall i | 0 < i < |path| ensures forall b | b in f.attach :: b.hash != path[i].hash {
      PathHeights(env, path, i);
    }
  }

  lemma NewlySeen(env: Env, known: map<Hash, Block>, store: map<Hash, Block>, path: seq<Block>, b: Block, parent: Block)
    requires Universe(env, known) && Kept(known, store, path) && Structured(b) && NoCollision(known, b)
    requires b.hash != env.genesis.hash
    requires Seen(known, parent) && parent.hash == b.prev && b.height == parent.height + 1
    ensures var known' := known[b.hash := b]; Universe(env, known') && Kept(known', store, path) && Seen(known', b)
  {
    hide Structured, Kept, Rooted;
    SeenKept(known, store, path, b);
    var known' := known[b.hash := b];
    forall h | h in known' && h != env.genesis.hash ensures Rooted(known', h) {
      if h == b.hash {
        NewRoot(known, b, parent);
      } else {
        StillRooted(known, b, h);
      }
    }
  }

  lemma NewRoot(known: map<Hash, Block>, b: Block, parent: Block)
    requires Structured(b) && NoCollision(known, b)
    requires Seen(known, parent) && parent.hash == b.prev && b.height == parent.height + 1
    ensures Rooted(known[b.hash := b], b.hash)
  {
    hide Structured;
    SameBlock(known, b, b.prev);
  }

  lemma StillRooted(known: map<Hash, Block>, b: Block, h: Hash)
    requires NoCollision(known, b) && h in known && h != b.hash && Rooted(known, h)
    ensures Rooted(known[b.hash := b], h)
  {
    hide Structured;
    SameBlock(known, b, known[h].prev);
  }

  /** A block seen for the first time, or again, changes no other. */
  lemma SameBlock(known: map<Hash, Block>, b: Block, h: Hash)
    requires NoCollision(known, b) && h in known
    ensures h in known[b.hash := b] && known[b.hash := b][h] == known[h]
  {
  }

  lemma SeenKept(known: map<Hash, Block>, store: map<Hash, Block>, path: seq<Block>, b: Block)
    requires Kept(known, store, path) && (b.hash in known ==> known[b.hash] == b)
    ensures Kept(known[b.hash := b], store, path)
  {
  }

  lemma StoreKept(known: map<Hash, Block>, store: map<Hash, Block>, path: seq<Block>, b: Block)
    requires Kept(known, store, path) && Seen(known, b)
    ensures Kept(known, store[b.hash := b], path)
  {
  }

  lemma ExtendNext(path: seq<Block>, eternal: Block, b: Block)
    requires Final(View(path, eternal))
    ensures Next(View(path, eternal), View(path + [b], eternal))
  {
    assert (path + [b])[..eternal.height + 1] == path[..eternal.height + 1];
  }
}
