/** `wallet/utxo_cache.go`: outputs a wallet has just used, kept until they expire. */
module LiveCache {
  import opened Collections

  const DEFAULT_DURATION: int := 10

  /** The two maps are inverse to each other: a bucket holds exactly the outputs stamped with it. */
  ghost predicate Inverse<O>(buckets: map<int, seq<O>>, stamps: map<O, int>) {
    (forall o | o in stamps :: stamps[o] in buckets && o in buckets[stamps[o]]) &&
    (forall t, o | t in buckets && o in buckets[t] :: o in stamps && stamps[o] == t) &&
    forall t | t in buckets :: Distinct(buckets[t])
  }

  class LiveUtxoCache<O(==, !new)> {
    var oldest: int
    var liveDuration: int
    var ts2Op: map<int, seq<O>>
    var op2ts: map<O, int>
    /** When each output was last added, never forgotten. */
    ghost var lastAdd: map<O, int>
    ghost var created: int
    ghost var clock: int

    ghost predicate Valid()
      reads this
    {
      Inverse(ts2Op, op2ts) &&
      created <= oldest <= clock && 0 < liveDuration &&
      (forall t | t in ts2Op :: oldest <= t <= clock) &&
      (forall o | o in lastAdd :: created <= lastAdd[o] <= clock) &&
      (forall o :: o in op2ts <==> o in lastAdd && oldest <= lastAdd[o]) &&
      forall o | o in op2ts :: op2ts[o] == lastAdd[o]
    }

    /** Nothing was dropped that the present duration would keep; lengthening it breaks this. */
    ghost predicate Steady()
      reads this
    {
      oldest == created || oldest <= clock - liveDuration
    }

    constructor (now: int)
      ensures Valid() && Steady() && lastAdd == map[] && clock == now && liveDuration == DEFAULT_DURATION
    {
      liveDuration, oldest, created, clock := DEFAULT_DURATION, now, now, now;
      ts2Op, op2ts, lastAdd := map[], map[], map[];
    }

    method SetLiveDuration(expired: int)
      requires Valid()
      modifies `liveDuration
      ensures Valid() && liveDuration == if expired <= 0 then DEFAULT_DURATION else expired
      ensures old(Steady()) && liveDuration <= old(liveDuration) ==> Steady()
    {
      liveDuration := if expired <= 0 then DEFAULT_DURATION else expired;
    }

    /** Adds an output, or moves it to the present bucket. */
    method Add(op: O, now: int)
      requires Valid() && clock <= now
      modifies `ts2Op, `op2ts, `lastAdd, `clock
      ensures Valid() && clock == now && lastAdd == old(lastAdd)[op := now]
      ensures old(Steady()) ==> Steady()
    {
      hide Inverse;
      Stamped(ts2Op, op2ts);
      if op in op2ts {
        var ts := op2ts[op];
        var ops := ts2Op[ts];
        var i := IndexOf(ops, op);
        TakeOut(ts2Op, op2ts, op, i);
        ts2Op := ts2Op[ts := ops[..i] + ops[i + 1..]];
      } else {
        Unstamped(op2ts, op);
      }
      PutIn(ts2Op, op2ts, op, now);
      ts2Op := ts2Op[now := (if now in ts2Op then ts2Op[now] else []) + [op]];
      op2ts := op2ts[op := now];
      lastAdd := lastAdd[op := now];
      clock := now;
    }

    method IndexOf(ops: seq<O>, op: O) returns (i: nat)
      requires op in ops
      ensures i < |ops| && ops[i] == op
    {
      i := 0;
      while ops[i] != op
        invariant i < |ops| && op in ops[i..]
        decreases |ops| - i
      {
        i := i + 1;
      }
    }

    /** Drops the buckets that are older than the live duration. */
    method Shrink(now: int)
      requires Valid() && clock <= now
      modifies `ts2Op, `op2ts, `oldest, `clock
      ensures Valid() && clock == now
      ensures oldest == if now - old(oldest) < liveDuration then old(oldest) else now - liveDuration
      ensures old(Steady()) ==> Steady()
      ensures old(Steady()) ==> forall o :: o in op2ts <==> o in lastAdd && now - liveDuration <= lastAdd[o]
    {
      hide Inverse;
      clock := now;
      if now - oldest < liveDuration {
        return;
      }
      var t := oldest;
      while t < now - liveDuration
        invariant oldest == old(oldest) && clock == now
        invariant oldest <= t <= now - liveDuration && Inverse(ts2Op, op2ts)
        invariant forall u | u in ts2Op :: t <= u <= clock
        invariant forall o :: o in op2ts <==> o in lastAdd && t <= lastAdd[o]
        invariant forall o | o in op2ts :: op2ts[o] == lastAdd[o]
        decreases now - liveDuration - t
      {
        Stamped(ts2Op, op2ts);
        if t in ts2Op {
          DropBucket(t);
          ts2Op := ts2Op - {t};
        }
        t := t + 1;
      }
      oldest := now - liveDuration;
    }

    /** Takes the outputs of one bucket out of the stamps. */
    method DropBucket(t: int)
      requires Inverse(ts2Op, op2ts) && t in ts2Op
      modifies `op2ts
      ensures op2ts == old(op2ts) - (set o | o in ts2Op[t])
      ensures Inverse(ts2Op - {t}, op2ts)
    {
      hide Inverse;
      var ops := ts2Op[t];
      for i := 0 to |ops|
        invariant op2ts == old(op2ts) - (set o | o in ops[..i])
      {
        assert ops[..i + 1] == ops[..i] + [ops[i]];
        op2ts := op2ts - {ops[i]};
      }
      assert ops[..|ops|] == ops;
      Dropped(ts2Op, old(op2ts), t);
    }

    method Contains(op: O) returns (r: bool)
      requires Valid()
      ensures r <==> op in lastAdd && oldest <= lastAdd[op]
    {
      r := op in op2ts;
    }
  }

  /** Dropping a bucket with the stamps of its outputs leaves the maps inverse. */
  lemma Dropped<O>(buckets: map<int, seq<O>>, stamps: map<O, int>, t: int)
    requires Inverse(buckets, stamps) && t in buckets
    ensures Inverse(buckets - {t}, stamps - (set o | o in buckets[t]))
  {
    hide Distinct;
    var buckets', stamps' := buckets - {t}, stamps - (set o | o in buckets[t]);
    forall o | o in stamps' ensures stamps'[o] in buckets' && o in buckets'[stamps'[o]] {
      assert o !in buckets[t];
    }
    forall u, o | u in buckets' && o in buckets'[u] ensures o in stamps' && stamps'[o] == u {
      assert o in buckets[u] && stamps[o] != t;
      assert o !in buckets[t];
    }
  }

  /** What is left of a list of distinct outputs without the one at i. */
  lemma Without<O>(ops: seq<O>, i: nat)
    requires i < |ops| && Distinct(ops)
    ensures var ops' := ops[..i] + ops[i + 1..];
            Distinct(ops') && (forall x | x in ops' :: x in ops && x != ops[i]) && forall x | x in ops && x != ops[i] :: x in ops'
  {
    var ops' := ops[..i] + ops[i + 1..];
    forall x | x in ops' ensures x in ops && x != ops[i] {
      var j :| 0 <= j < |ops'| && ops'[j] == x;
      assert x == ops[if j < i then j else j + 1];
    }
    forall x | x in ops && x != ops[i] ensures x in ops' {
      var j :| 0 <= j < |ops| && ops[j] == x;
      assert x == ops'[if j < i then j else j - 1];
    }
  }

  /** Taking an output out of its bucket and its stamp leaves the maps inverse. */
  lemma TakeOut<O>(buckets: map<int, seq<O>>, stamps: map<O, int>, o: O, i: nat)
    requires Inverse(buckets, stamps) && o in stamps
    requires i < |buckets[stamps[o]]| && buckets[stamps[o]][i] == o
    ensures var ops := buckets[stamps[o]];
            Inverse(buckets[stamps[o] := ops[..i] + ops[i + 1..]], stamps - {o})
  {
    hide Distinct;
    var t := stamps[o];
    assert Distinct(buckets[t]);
    Without(buckets[t], i);
    var ops' := buckets[t][..i] + buckets[t][i + 1..];
    var buckets', stamps' := buckets[t := ops'], stamps - {o};
    forall u, x | u in buckets' && x in buckets'[u] ensures x in stamps' && stamps'[x] == u {
      assert x in buckets[u];
    }
  }

  /** Stamping an output that has no bucket yet keeps the maps inverse, whatever stamp it had. */
  lemma PutIn<O>(buckets: map<int, seq<O>>, stamps: map<O, int>, o: O, t: int)
    requires Inverse(buckets, stamps - {o})
    ensures Inverse(buckets[t := (if t in buckets then buckets[t] else []) + [o]], stamps[o := t])
  {
    var ops := if t in buckets then buckets[t] else [];
    var buckets' := buckets[t := ops + [o]];
    var stamps' := stamps[o := t];
    forall x | x in ops ensures x in stamps && x != o {
      assert x in stamps - {o};
    }
    assert Distinct(ops);
    forall x | x in stamps' ensures stamps'[x] in buckets' && x in buckets'[stamps'[x]] {
      if x != o {
        assert x in stamps - {o};
      }
    }
    forall u, x | u in buckets' && x in buckets'[u] ensures x in stamps' && stamps'[x] == u {
      if x != o {
        assert x in buckets[u];
        assert x in stamps - {o};
      }
    }
  }

  /** Every stamp has its bucket. */
  lemma Stamped<O>(buckets: map<int, seq<O>>, stamps: map<O, int>)
    requires Inverse(buckets, stamps)
    ensures forall o | o in stamps :: stamps[o] in buckets && o in buckets[stamps[o]]
    ensures forall t, o | t in buckets && o in buckets[t] :: o in stamps && stamps[o] == t
  {
  }

  /** An output without a stamp can be ignored. */
  lemma Unstamped<O>(stamps: map<O, int>, o: O)
    requires o !in stamps
    ensures stamps - {o} == stamps
  {
  }
}
