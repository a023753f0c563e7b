/** `verifyIrreversibleInfo` in `consensus/bpos/bpos.go`: what a finality certificate proves. */
module Certificates {
  import opened BigEndian
  import opened Collections

  /** The threshold used throughout the consensus: two thirds of the delegates, rounded down. */
  function Threshold(n: nat): (q: nat) {
    2 * n / 3
  }

  /** Every signature recovers to a dynasty member, and no member occurs twice. */
  ghost predicate Signed<S(!new), A>(recover: S -> Option<A>, dynasty: seq<A>, sigs: seq<S>) {
    (forall i | 0 <= i < |sigs| :: recover(sigs[i]).Some? && recover(sigs[i]).value in dynasty) &&
    forall i, j | 0 <= i < j < |sigs| :: recover(sigs[i]) != recover(sigs[j])
  }

  ghost function Signers<S, A>(recover: S -> Option<A>, sigs: seq<S>): (r: set<A>) {
    set i | 0 <= i < |sigs| && recover(sigs[i]).Some? :: recover(sigs[i]).value
  }

  /** `verifyIrreversibleInfo` accepts exactly the certificates of enough distinct members. */
  method Verify<S(!new), A(==)>(recover: S -> Option<A>, dynasty: seq<A>, n: nat, sigs: seq<S>) returns (ok: bool)
    ensures ok <==> Threshold(n) <= |sigs| && Signed(recover, dynasty, sigs)
  {
    if |sigs| < Threshold(n) { return false; }
    var remains: seq<A> := [];
    for i := 0 to |sigs|
      invariant |remains| == i
      invariant forall j | 0 <= j < i :: recover(sigs[j]) == Some(remains[j]) && remains[j] in dynasty
      invariant forall j, k | 0 <= j < k < i :: remains[j] != remains[k]
    {
      var addr := recover(sigs[i]);
      if addr == None || addr.value !in dynasty { return false; }
      if addr.value in remains {
        ghost var j :| 0 <= j < i && remains[j] == addr.value;
        assert recover(sigs[j]) == recover(sigs[i]);
        return false;
      }
      remains := remains + [addr.value];
    }
    ok := |remains| >= Threshold(n);
  }

  /** An accepted certificate has at least the threshold of signers, all of them members. */
  lemma {:induction false} SignerCount<S(!new), A>(recover: S -> Option<A>, dynasty: seq<A>, sigs: seq<S>)
    requires Signed(recover, dynasty, sigs)
    ensures |Signers(recover, sigs)| == |sigs|
    ensures forall a | a in Signers(recover, sigs) :: a in dynasty
  {
    if sigs != [] {
      var last := |sigs| - 1;
      SignerCount(recover, dynasty, sigs[..last]);
      var a := recover(sigs[last]).value;
      assert Signers(recover, sigs) == Signers(recover, sigs[..last]) + {a};
      assert a !in Signers(recover, sigs[..last]);
    }
  }

  // ---- overlap of two certificates -------------------------------------------------------------

  /** Two sets of at least `q` members each share at least `2q - n` of the `n` members. */
  lemma Overlap<A>(members: set<A>, a: set<A>, b: set<A>, q: nat)
    requires a <= members && b <= members && q <= |a| && q <= |b|
    ensures 2 * q - |members| <= |a * b|
  {
    assert |a + b| + |a * b| == |a| + |b| by {
      assert a + b == a + (b - a) && b == (b - a) + (a * b);
    }
    SubsetSize(a + b, members);
  }

  lemma {:induction false} PickSubset<A>(s: set<A>, k: nat) returns (t: set<A>)
    requires k <= |s|
    ensures t <= s && |t| == k
    decreases k
  {
    t := {};
    if k > 0 {
      t := PickSubset(s, k - 1);
      assert |s - t| == |s| - |t| by { assert s == t + (s - t); }
      var x :| x in s - t;
      t := t + {x};
    }
  }

  /** The bound on the overlap is reached. */
  lemma LeastOverlap<A>(members: set<A>, q: nat) returns (a: set<A>, b: set<A>)
    requires q <= |members|
    ensures a <= members && b <= members && |a| == q && |b| == q
    ensures |a * b| == if 2 * q <= |members| then 0 else 2 * q - |members|
  {
    a := PickSubset(members, q);
    var others := members - a;
    assert |others| == |members| - q by { assert members == a + others; }
    if 2 * q <= |members| {
      b := PickSubset(others, q);
      assert a * b == {};
    } else {
      var c := PickSubset(a, 2 * q - |members|);
      b := others + c;
      assert a * b == c;
    }
  }

  /** The most members that may be faulty when fewer than a third are. */
  function Faulty(n: nat): (f: nat) {
    if n == 0 then 0 else (n - 1) / 3
  }

  lemma {:induction false} MemberCount<A>(s: seq<A>)
    requires Distinct(s)
    ensures |Elements(s)| == |s|
  {
    if s != [] {
      var last := |s| - 1;
      MemberCount(s[..last]);
      assert Elements(s) == Elements(s[..last]) + {s[last]};
    }
  }

  /** A certificate as `Verify` accepts it. */
  ghost predicate Accepted<S(!new), A>(recover: S -> Option<A>, dynasty: seq<A>, sigs: seq<S>) {
    Threshold(|dynasty|) <= |sigs| && Signed(recover, dynasty, sigs)
  }

  /** Two certificates of one dynasty, for whatever blocks, share at least `2q - n` of its `n` members. */
  lemma CertificateOverlap<S(!new), A>(dynasty: seq<A>, r1: S -> Option<A>, s1: seq<S>, r2: S -> Option<A>, s2: seq<S>)
    requires Distinct(dynasty) && Accepted(r1, dynasty, s1) && Accepted(r2, dynasty, s2)
    ensures 2 * Threshold(|dynasty|) - |dynasty| <= |Signers(r1, s1) * Signers(r2, s2)|
  {
    SignerCount(r1, dynasty, s1);
    SignerCount(r2, dynasty, s2);
    MemberCount(dynasty);
    Overlap(Elements(dynasty), Signers(r1, s1), Signers(r2, s2), Threshold(|dynasty|));
  }

  /** A set of members that may be faulty. */
  ghost predicate Tolerable<A>(dynasty: seq<A>, bad: set<A>) {
    bad <= Elements(dynasty) && |bad| <= Faulty(|dynasty|)
  }

  /** Whatever tolerable set is faulty, two accepted certificates share a signer outside it. */
  ghost predicate HonestOverlap<A(!new)>(dynasty: seq<A>) {
    forall r1: A -> Option<A>, s1: seq<A>, r2: A -> Option<A>, s2: seq<A>, bad: set<A> |
      Accepted(r1, dynasty, s1) && Accepted(r2, dynasty, s2) && Tolerable(dynasty, bad) ::
      !(Signers(r1, s1) * Signers(r2, s2) <= bad)
  }

  /** For a dynasty of a positive multiple of three, two certificates share an honest signer. */
  lemma HonestSigner<S(!new), A>(dynasty: seq<A>, r1: S -> Option<A>, s1: seq<S>, r2: S -> Option<A>, s2: seq<S>, bad: set<A>)
    requires Distinct(dynasty) && 0 < |dynasty| && |dynasty| % 3 == 0
    requires Accepted(r1, dynasty, s1) && Accepted(r2, dynasty, s2) && Tolerable(dynasty, bad)
    ensures !(Signers(r1, s1) * Signers(r2, s2) <= bad)
  {
    CertificateOverlap(dynasty, r1, s1, r2, s2);
    if Signers(r1, s1) * Signers(r2, s2) <= bad {
      SubsetSize(Signers(r1, s1) * Signers(r2, s2), bad);
    }
  }

  lemma {:induction false} SeqOf<A>(a: set<A>) returns (s: seq<A>)
    ensures Distinct(s) && Elements(s) == a
    decreases a
  {
    s := [];
    if a != {} {
      var x :| x in a;
      var rest := SeqOf(a - {x});
      s := rest + [x];
      assert forall i | 0 <= i < |rest| :: rest[i] in Elements(rest);
      assert Elements(s) == Elements(rest) + {x};
      assert a == (a - {x}) + {x};
    }
  }

  /** A certificate signed by exactly a given set of members. */
  lemma CertificateOf<A(!new)>(dynasty: seq<A>, a: set<A>) returns (s: seq<A>)
    requires a <= Elements(dynasty)
    ensures var recover := (x: A) => Some(x);
            Signed(recover, dynasty, s) && Signers(recover, s) == a && |s| == |a|
  {
    s := SeqOf(a);
    MemberCount(s);
    var recover := (x: A) => Some(x);
    assert forall i | 0 <= i < |s| :: recover(s[i]) == Some(s[i]) && s[i] in Elements(s);
    assert Signers(recover, s) == Elements(s);
  }

  /** With the rounded-down threshold two certificates always share an honest signer exactly if the
      dynasty's size is a positive multiple of three. */
  lemma HonestOverlapLaw<A(!new)>(dynasty: seq<A>)
    requires Distinct(dynasty)
    ensures HonestOverlap(dynasty) <==> 0 < |dynasty| && |dynasty| % 3 == 0
  {
    if 0 < |dynasty| && |dynasty| % 3 == 0 {
      forall r1: A -> Option<A>, s1: seq<A>, r2: A -> Option<A>, s2: seq<A>, bad: set<A> |
        Accepted(r1, dynasty, s1) && Accepted(r2, dynasty, s2) && Tolerable(dynasty, bad)
        ensures !(Signers(r1, s1) * Signers(r2, s2) <= bad)
      {
        HonestSigner(dynasty, r1, s1, r2, s2, bad);
      }
    } else {
      MemberCount(dynasty);
      var recover := (x: A) => Some(x);
      var a, b := LeastOverlap(Elements(dynasty), Threshold(|dynasty|));
      var s1 := CertificateOf(dynasty, a);
      var s2 := CertificateOf(dynasty, b);
      assert Accepted(recover, dynasty, s1) && Accepted(recover, dynasty, s2);
      assert Tolerable(dynasty, a * b);
    }
  }
}
