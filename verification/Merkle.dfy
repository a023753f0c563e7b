/** `util/merkle.go`: the transaction tree kept in one flat array. */
module Merkle {
  import opened BigEndian

  function FloorLog2(n: nat): (k: nat)
    requires 0 < n
  {
    if n < 2 then 0 else 1 + FloorLog2(n / 2)
  }

  /** `calcLowestHierarchyCount`: `n` itself when a power of two, else the next one. */
  function LeafCount(n: nat): (l: nat)
    requires 0 < n
  {
    if Pow2(FloorLog2(n)) == n then n else Pow2(FloorLog2(n) + 1)
  }

  lemma {:induction false} LogBounds(n: nat)
    requires 0 < n
    ensures Pow2(FloorLog2(n)) <= n < 2 * Pow2(FloorLog2(n))
  {
    if n >= 2 { LogBounds(n / 2); }
  }

  /** A level of `size` places holds `n` hashes: more than half of them, so no level is skipped. */
  predicate Snug(n: nat, size: nat) {
    0 < n <= size < 2 * n
  }

  lemma LeafCountLaw(n: nat)
    requires 0 < n
    ensures Snug(n, LeafCount(n)) && exists k: nat :: LeafCount(n) == Pow2(k)
  {
    LogBounds(n);
    var k := FloorLog2(n);
    assert LeafCount(n) == Pow2(k) || LeafCount(n) == Pow2(k + 1);
  }

  /** Neighbours combined; an odd last hash is paired with itself. */
  function PairUp<H>(h: (H, H) -> H, s: seq<H>): (r: seq<H>)
    ensures |r| == (|s| + 1) / 2
  {
    seq((|s| + 1) / 2, i requires 0 <= i < (|s| + 1) / 2 =>
      h(s[2 * i], if 2 * i + 1 < |s| then s[2 * i + 1] else s[2 * i]))
  }

  /** The root, level by level. */
  function Root<H>(h: (H, H) -> H, s: seq<H>): (r: H)
    requires s != []
    decreases |s|
  {
    if |s| == 1 then s[0] else Root(h, PairUp(h, s))
  }

  /** One inner cell from its two children. */
  function Join<H>(h: (H, H) -> H, a: Option<H>, b: Option<H>): (r: Option<H>) {
    if a == None then None
    else if b == None then Some(h(a.value, a.value))
    else Some(h(a.value, b.value))
  }

  /** A level: its hashes, then empty cells. */
  ghost function Padded<H>(s: seq<H>, size: nat): (r: seq<Option<H>>)
    ensures |r| == size
  {
    seq(size, i requires 0 <= i < size => if i < |s| then Some(s[i]) else None)
  }

  ghost predicate JoinedAt<H>(h: (H, H) -> H, m: seq<Option<H>>, leaves: nat, j: nat)
    requires |m| == 2 * leaves - 1 && j < leaves - 1
  {
    m[leaves + j] == Join(h, m[2 * j], m[2 * j + 1])
  }

  /** The array has `leaves` leaves, and every cell after them joins the next pair of cells. */
  ghost predicate Joined<H>(h: (H, H) -> H, m: seq<Option<H>>, leaves: nat) {
    |m| == 2 * leaves - 1 && forall j | 0 <= j < leaves - 1 :: JoinedAt(h, m, leaves, j)
  }

  /** The level of `size` cells is followed by the level of its pairs. */
  lemma NextLevel<H>(h: (H, H) -> H, m: seq<Option<H>>, leaves: nat, size: nat, s: seq<H>)
    requires Joined(h, m, leaves) && 2 * size <= leaves && 0 < size
    requires m[2 * leaves - 4 * size..2 * leaves - 2 * size] == Padded(s, 2 * size)
    ensures m[2 * leaves - 2 * size..2 * leaves - size] == Padded(PairUp(h, s), size)
  {
    var b, t := 2 * leaves - 4 * size, PairUp(h, s);
    var level := m[b..b + 2 * size];
    forall i | 0 <= i < size
      ensures m[b + 2 * size + i] == Padded(t, size)[i]
    {
      assert JoinedAt(h, m, leaves, leaves - 2 * size + i);
      assert m[b + 2 * i] == level[2 * i] && m[b + 2 * i + 1] == level[2 * i + 1];
    }
  }

  /** From a snug level up, the last cell is the root of that level. */
  lemma {:induction false} LevelRoot<H>(h: (H, H) -> H, m: seq<Option<H>>, leaves: nat, k: nat, s: seq<H>)
    requires Joined(h, m, leaves) && Pow2(k) <= leaves && Snug(|s|, Pow2(k))
    requires m[2 * leaves - 2 * Pow2(k)..2 * leaves - Pow2(k)] == Padded(s, Pow2(k))
    ensures m[|m| - 1] == Some(Root(h, s))
    decreases k
  {
    if k == 0 {
      assert m[2 * leaves - 2] == m[2 * leaves - 2..2 * leaves - 1][0];
    } else {
      NextLevel(h, m, leaves, Pow2(k - 1), s);
      LevelRoot(h, m, leaves, k - 1, PairUp(h, s));
    }
  }

  /** `BuildMerkleRoot`: the last cell of the array is the root of the list. */
  method BuildMerkleRoot<H>(h: (H, H) -> H, hashs: seq<H>) returns (merkles: array<Option<H>>)
    requires hashs != []
    ensures fresh(merkles) && merkles.Length == 2 * LeafCount(|hashs|) - 1
    ensures merkles[..LeafCount(|hashs|)] == Padded(hashs, LeafCount(|hashs|))
    ensures Joined(h, merkles[..], LeafCount(|hashs|))
    ensures merkles[merkles.Length - 1] == Some(Root(h, hashs))
  {
    hide LeafCount, Root, Join;
    var leafSize := LeafCount(|hashs|);
    LeafCountLaw(|hashs|);
    var arraySize := leafSize * 2 - 1;
    merkles := new Option<H>[arraySize](_ => None);
    for i := 0 to |hashs|
      invariant forall x | 0 <= x < arraySize :: merkles[x] == if x < i then Some(hashs[x]) else None
    {
      merkles[i] := Some(hashs[i]);
    }
    assert merkles[..leafSize] == Padded(hashs, leafSize);
    FillLevels(h, merkles, leafSize);
    ghost var k: nat :| leafSize == Pow2(k);
    assert merkles[..][0..leafSize] == merkles[..leafSize];
    LevelRoot(h, merkles[..], leafSize, k, hashs);
  }

  /** The pairing loop. */
  method FillLevels<H>(h: (H, H) -> H, merkles: array<Option<H>>, leafSize: nat)
    requires 0 < leafSize && merkles.Length == 2 * leafSize - 1
    modifies merkles
    ensures merkles[..leafSize] == old(merkles[..leafSize])
    ensures Joined(h, merkles[..], leafSize)
  {
    var i, offset := 0, leafSize;
    while i < merkles.Length - 1
      invariant i == 2 * (offset - leafSize) && leafSize <= offset <= merkles.Length
      invariant merkles[..leafSize] == old(merkles[..leafSize])
      invariant forall j | 0 <= j < offset - leafSize ::
        merkles[leafSize + j] == Join(h, merkles[2 * j], merkles[2 * j + 1])
    {
      merkles[offset] := Join(h, merkles[i], merkles[i + 1]);
      i, offset := i + 2, offset + 1;
    }
    ghost var m := merkles[..];
    assert forall j | 0 <= j < leafSize - 1 :: JoinedAt(h, m, leafSize, j);
  }
}
