/** Two runs of the chain from its genesis block: a branch that loses its root, and an eternal block set
    after the main chain has moved away from it. */
module ChainRuns {
  import opened BigEndian
  import opened Ledger
  import opened Freshness
  import opened UtxoSets
  import opened Supply
  import opened Validation
  import opened Paths
  import opened Chain

  // ---- Blocks that hold only a coinbase ----

  function Coinbase(height: byte): Tx {
    Tx([1, height], [OutPoint(ZERO_HASH, MAX_UINT32)], [TxOut(0, Address([]))])
  }

  function Plain(id: byte, prev: byte, height: byte): Block {
    Block([0, id], [0, prev], height, [Coinbase(height)])
  }

  predicate IsPlain(b: Block) {
    b.height < 256 && b.txs == [Coinbase(b.height)]
  }

  const GENESIS: Block := Plain(0, 0, 0)

  /** No rewards, and consensus agrees to every block of this kind. */
  const ENV: Env := Env(GENESIS, map[], map[], (b: Block) => IsPlain(b), (h: nat) => 0)

  lemma EnvIsGood()
    ensures GoodEnv(ENV)
  {
    forall a, b | ENV.verify(a) && ENV.verify(b) && SameCoinbase(a, b) ensures a.height == b.height {
      assert Coinbase(a.height).hash[1] == Coinbase(b.height).hash[1];
    }
  }

  lemma PlainStructured(b: Block)
    requires IsPlain(b)
    ensures Structured(b)
  {
    var tx := b.txs[0];
    assert TxOutTotal(tx) == OutSum(tx, 0) + 0;
    assert RoughSum(b, 1) == RoughSum(b, 0) + RoughSize(tx);
    assert |ZERO_HASH| == 32 && |tx.hash| == 2;
  }

  ghost predicate AllPlain(known: map<Hash, Block>) {
    forall h | h in known :: IsPlain(known[h])
  }

  lemma PlainHashing(known: map<Hash, Block>)
    requires AllPlain(known)
    ensures Hashing(ENV, known)
  {
    forall h, k | h in known && k in known ensures Alike(known[h], known[k]) {
      PlainAlike(known[h], known[k]);
    }
  }

  lemma PlainAlike(a: Block, b: Block)
    requires IsPlain(a) && IsPlain(b)
    ensures Alike(a, b)
  {
    if Coinbase(a.height).hash == Coinbase(b.height).hash {
      assert Coinbase(a.height).hash[1] == Coinbase(b.height).hash[1];
    }
  }

  ghost predicate PlainPath(path: seq<Block>) {
    0 < |path| <= 256 && path[0] == GENESIS &&
    forall i | 0 < i < |path| :: IsPlain(path[i]) && path[i].height == i && path[i].prev == path[i - 1].hash
  }

  /** Linked blocks of this kind are always a main chain. */
  lemma {:induction false} PlainIsGood(path: seq<Block>)
    requires PlainPath(path)
    ensures GoodPath(ENV, path)
    ensures forall h | h in IndexOf(ENV, path) :: |h| == 2 && h[1] < |path|
  {
    hide Admissible;
    if |path| > 1 {
      var before, b := Init(path), Last(path);
      PlainIsGood(before);
      PlainAdmissible(before, b);
      assert BlockIndex(b, 1) == BlockIndex(b, 0)[b.txs[0].hash := Located(b.height, b.txs[0])];
    }
  }

  lemma PlainAdmissible(path: seq<Block>, b: Block)
    requires |path| > 0 && IsPlain(b) && b.height == |path| && b.prev == Last(path).hash
    requires forall h | h in IndexOf(ENV, path) :: |h| == 2 && h[1] < |path|
    ensures Admissible(ENV, path, b)
  {
    hide IndexOf, LedgerOf, Structured, Accepted;
    PlainStructured(b);
    PlainAccepted(LedgerOf(ENV, path), b);
    assert ENV.verify(b);
    assert Fresh(IndexOf(ENV, path), b);
  }

  lemma PlainAccepted(l: Db, b: Block)
    requires IsPlain(b)
    ensures Accepted(l, b, 0)
  {
    var tx := b.txs[0];
    assert TxOutTotal(tx) == OutSum(tx, 0) + 0;
    assert FeeSum(b, 1) == FeeSum(b, 0) + 0;
  }

  // ---- A branch without its root ----

  const A1: Block := Plain(1, 0, 1)
  const A2: Block := Plain(2, 1, 2)
  const S1: Block := Plain(3, 0, 1)
  const S2: Block := Plain(4, 3, 2)
  const S3: Block := Plain(5, 4, 3)
  const T2: Block := Plain(6, 3, 2)
  const T3: Block := Plain(7, 6, 3)

  const ALL: seq<Block> := [GENESIS, A1, A2, S1, S2, S3, T2, T3]

  ghost predicate FromAll(known: map<Hash, Block>) {
    forall h | h in known :: known[h] in ALL && known[h].hash == h
  }

  /** The blocks are told apart by their hashes. */
  lemma AllApart(known: map<Hash, Block>, b: Block)
    requires FromAll(known) && b in ALL && b != GENESIS
    ensures NoCollision(known, b) && FromAll(known[b.hash := b]) && b.hash != GENESIS.hash
    ensures IsPlain(b) && AllPlain(known[b.hash := b])
  {
    var i :| 0 <= i < |ALL| && ALL[i] == b;
    assert b.hash[1] == i;
    forall h | h in known ensures IsPlain(known[h]) && (h == b.hash ==> known[h] == b) {
      var j :| 0 <= j < |ALL| && ALL[j] == known[h];
      assert known[h].hash[1] == j;
    }
  }

  const MAIN: seq<Block> := [GENESIS, A1, A2]
  ghost const FULL: map<Hash, Block> := map[A1.hash := A1, A2.hash := A2, S1.hash := S1, S2.hash := S2, T2.hash := T2]

  /** The blocks offered first, what becomes of them, and the states they lead through. */
  const OFFERED: seq<Block> := [A1, A2, S1, S2, T2]
  const TAKEN: seq<Outcome> := [Connected, Connected, OnSide, OnSide, OnSide]

  ghost function Stage(k: nat): State {
    if k == 0 then State(map[], [GENESIS])
    else if k == 1 then State(map[A1.hash := A1], [GENESIS, A1])
    else if k == 2 then State(map[A1.hash := A1, A2.hash := A2], MAIN)
    else if k == 3 then State(map[A1.hash := A1, A2.hash := A2, S1.hash := S1], MAIN)
    else if k == 4 then State(map[A1.hash := A1, A2.hash := A2, S1.hash := S1, S2.hash := S2], MAIN)
    else State(FULL, MAIN)
  }

  lemma StageStep(k: nat)
    requires k < 5
    ensures var s := Stage(k);
            Verdict(ENV, s.store, s.path, GENESIS, OFFERED[k]) == TAKEN[k] &&
            After(ENV, s, OFFERED[k], TAKEN[k]) == Stage(k + 1)
  {
    hide Verdict, After;
    Different();
    var s := Stage(k);
    if k < 2 {
      Extends(s.path, s.store, GENESIS, OFFERED[k]);
    } else {
      Stores(s.store, s.path, GENESIS, OFFERED[k]);
    }
  }

  lemma Different()
    ensures GENESIS.hash[1] == 0 && A1.hash[1] == 1 && A2.hash[1] == 2 && S1.hash[1] == 3 && S2.hash[1] == 4
    ensures S3.hash[1] == 5 && T2.hash[1] == 6 && T3.hash[1] == 7
  {
  }

  /** The first two blocks make the main chain. */
  lemma Extends(path: seq<Block>, store: map<Hash, Block>, eternal: Block, b: Block)
    requires PlainPath(path) && PlainPath(path + [b]) && Follows(ENV, store, b)
    ensures Verdict(ENV, store, path, eternal, b) == Connected
    ensures After(ENV, State(store, path), b, Connected) == State(store[b.hash := b], path + [b])
  {
    hide Admissible, Follows, IsPlain;
    PlainIsGood(path + [b]);
    assert Init(path + [b]) == path && Last(path + [b]) == b;
    assert (path + [b])[|path|].prev == (path + [b])[|path| - 1].hash;
  }

  /** The branch of a block of the main chain, and of a block on top of a branch. */
  lemma BranchAt(store: map<Hash, Block>, path: seq<Block>, b: Block)
    requires OnPath(path, b)
    ensures AncestryHeld(ENV, store, path, b) && ForkHeight(ENV, store, path, b) == b.height
    ensures BranchPath(ENV, store, path, b) == path[..b.height + 1] && BranchHashes(ENV, store, path, b) == {}
  {
  }

  lemma BranchOn(store: map<Hash, Block>, path: seq<Block>, b: Block, parent: Block)
    requires !OnPath(path, b) && Follows(ENV, store, b) && ParentIn(ENV, store, b) == parent
    requires AncestryHeld(ENV, store, path, parent)
    ensures AncestryHeld(ENV, store, path, b) && ForkHeight(ENV, store, path, b) == ForkHeight(ENV, store, path, parent)
    ensures BranchPath(ENV, store, path, b) == BranchPath(ENV, store, path, parent) + [b]
    ensures BranchHashes(ENV, store, path, b) == BranchHashes(ENV, store, path, parent) + {b.hash}
  {
  }

  /** The branch of S3 forks at genesis, below the eternal block. */
  lemma Drops()
    ensures Verdict(ENV, FULL, MAIN, A1, S3) == Dropped
    ensures After(ENV, State(FULL, MAIN), S3, Dropped) == State(FULL - {S1.hash, S2.hash, S3.hash}, MAIN)
  {
    hide GoodPath, Admissible, AncestryHeld, ForkHeight, BranchPath, BranchHashes;
    Different();
    BranchAt(FULL, MAIN, GENESIS);
    BranchOn(FULL, MAIN, S1, GENESIS);
    BranchOn(FULL, MAIN, S2, S1);
    BranchOn(FULL, MAIN, S3, S2);
    assert {} + {S1.hash} + {S2.hash} + {S3.hash} == {S1.hash, S2.hash, S3.hash};
  }

  /** T2 has lost its parent, and a longer branch on it cannot be walked down. */
  lemma Panics()
    ensures Verdict(ENV, FULL - {S1.hash, S2.hash, S3.hash}, MAIN, A1, T3) == Panicked
  {
    hide GoodPath, Admissible, BranchPath;
    Different();
    var left := FULL - {S1.hash, S2.hash, S3.hash};
    assert !OnPath(MAIN, T2) && !Held(ENV, left, T2.prev);
    assert !AncestryHeld(ENV, left, MAIN, T2);
    assert ParentIn(ENV, left, T3) == T2 && !OnPath(MAIN, T3);
    assert !AncestryHeld(ENV, left, MAIN, T3);
  }

  /** A block on a branch that is no longer than the main chain is stored. */
  lemma Stores(store: map<Hash, Block>, path: seq<Block>, eternal: Block, b: Block)
    requires |path| > 0 && Follows(ENV, store, b) && b.prev != Last(path).hash && eternal.height < b.height < |path|
    ensures Verdict(ENV, store, path, eternal, b) == OnSide
    ensures After(ENV, State(store, path), b, OnSide) == State(store[b.hash := b], path)
  {
  }

  /** Offers the chain one of the blocks. */
  method Offer(c: BlockChain, b: Block) returns (o: Outcome)
    requires c.Valid() && c.env == ENV && FromAll(c.known) && b in ALL && b != GENESIS
    modifies c
    ensures c.Valid() && c.eternal == old(c.eternal) && FromAll(c.known)
    ensures o == Verdict(ENV, old(c.store), old(c.path), c.eternal, b)
    ensures State(c.store, c.path) == After(ENV, State(old(c.store), old(c.path)), b, o)
  {
    hide BlockChain.Valid, Verdict, After, Structured, Hashing, IsPlain, Next, Follows, FromAll, NoCollision;
    AllApart(c.known, b);
    PlainStructured(b);
    PlainHashing(c.known[b.hash := b]);
    o := c.TryAcceptBlock(b);
  }

  method Start() returns (c: BlockChain)
    ensures fresh(c) && c.Valid() && c.env == ENV && FromAll(c.known)
    ensures State(c.store, c.path) == Stage(0) && c.eternal == GENESIS
  {
    hide BlockChain.Valid, GoodEnv;
    EnvIsGood();
    c := new BlockChain(ENV);
  }

  /** A main chain of two blocks beside two branches that share their first block. */
  method Branches() returns (c: BlockChain, os: seq<Outcome>)
    ensures fresh(c) && c.Valid() && c.env == ENV && FromAll(c.known)
    ensures State(c.store, c.path) == Stage(5) && c.eternal == GENESIS && os == TAKEN
  {
    hide BlockChain.Valid, Verdict, After, FromAll, Stage;
    c := Start();
    os := [];
    for k := 0 to |OFFERED|
      invariant fresh(c) && c.Valid() && c.env == ENV && FromAll(c.known)
      invariant State(c.store, c.path) == Stage(k) && c.eternal == GENESIS && os == TAKEN[..k]
    {
      StageStep(k);
      var o := Offer(c, OFFERED[k]);
      os := os + [o];
    }
  }

  /** Once the first block of the main chain is eternal, the longer of the two branches is dropped with the
      block they share; the other branch is still stored, and a block on top of it makes the search for the
      fork panic. */
  method StrandedRun() returns (c: BlockChain, os: seq<Outcome>)
    ensures os == [Connected, Connected, OnSide, OnSide, OnSide, Dropped, Panicked]
    ensures c.Valid() && c.path == MAIN && c.eternal == A1 && InStore(c.store, T2) && !Held(ENV, c.store, T2.prev)
  {
    hide BlockChain.Valid, Verdict, After, FromAll, Next;
    Different();
    c, os := Branches();
    var u := SetFirst(c);
    Drops();
    var o6 := Offer(c, S3);
    Panics();
    var o7 := Offer(c, T3);
    os := os + [o6, o7];
    Unmoved();
  }

  method SetFirst(c: BlockChain) returns (o: Outcome)
    requires c.Valid() && c.env == ENV && FromAll(c.known) && c.path == MAIN && c.eternal == GENESIS
    modifies c`eternal
    ensures c.Valid() && c.eternal == A1
  {
    hide BlockChain.Valid, FromAll, NoCollision, Next;
    AllApart(c.known, A1);
    o := c.UpdateEternal(A1);
  }

  lemma Unmoved()
    ensures After(ENV, State(FULL - {S1.hash, S2.hash, S3.hash}, MAIN), T3, Panicked) ==
            State(FULL - {S1.hash, S2.hash, S3.hash}, MAIN)
  {
  }

  // ---- An eternal block off the main chain ----

  ghost function Beside(): State {
    State(map[A1.hash := A1, S1.hash := S1], [GENESIS, A1])
  }

  lemma StoresBeside()
    ensures Verdict(ENV, Stage(1).store, Stage(1).path, GENESIS, S1) == OnSide
    ensures After(ENV, Stage(1), S1, OnSide) == Beside()
  {
    hide Verdict, After;
    Different();
    Stores(Stage(1).store, Stage(1).path, GENESIS, S1);
  }

  /** The branch of S2 forks at genesis and is longer than the main chain. */
  lemma Switches()
    ensures Verdict(ENV, Beside().store, Beside().path, GENESIS, S2) == Switched
    ensures After(ENV, Beside(), S2, Switched).path == [GENESIS, S1, S2]
  {
    hide GoodPath, Admissible, AncestryHeld, ForkHeight, BranchPath, BranchHashes;
    Different();
    var store, path := Beside().store, Beside().path;
    BranchAt(store, path, GENESIS);
    BranchOn(store, path, S1, GENESIS);
    BranchOn(store, path, S2, S1);
    assert path[..1] + [S1] + [S2] == [GENESIS, S1, S2];
    SideIsGood();
  }

  lemma SideIsGood()
    ensures GoodPath(ENV, [GENESIS, S1, S2])
  {
    hide GoodPath, IndexOf;
    PlainIsGood([GENESIS, S1, S2]);
  }

  /** A block is checked to be on the main chain, the chain switches to a branch that forks below it, and the
      block is made eternal all the same. */
  method SplitRun() returns (c: BlockChain, os: seq<Outcome>)
    ensures os == [Connected, Connected, OnSide, Switched]
    ensures c.path == [GENESIS, S1, S2] && c.eternal == A1 && !Final(View(c.path, c.eternal))
  {
    hide BlockChain.Valid, Verdict, After, FromAll, NoCollision, Next, Beside;
    c := Start();
    StageStep(0);
    var o1 := Offer(c, A1);
    AllApart(c.known, A1);
    var o2 := c.CheckEternal(A1);
    StoresBeside();
    var o3 := Offer(c, S1);
    Switches();
    var o4 := Offer(c, S2);
    var ok := c.SetEternal(A1);
    Different();
    os := [o1, o2, o3, o4];
  }
}
