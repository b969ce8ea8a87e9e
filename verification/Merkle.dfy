/**
 The Merkle tree over ledger entry hashes (section 2.1 of RFC 9162): the tree
 head, the audit path, and the bit-shifting loop that checks a path.

 The hash is an arbitrary function. Soundness is therefore stated as a
 reduction: a forged proof hands over two explicit messages that collide.
 */
module Merkle {
  import opened Common

  function Leaf(sha: Sha, entry: Bytes): Digest {
    sha([0] + entry)
  }

  function Node(sha: Sha, left: Bytes, right: Bytes): Digest {
    sha([1] + left + right)
  }

  // ---------------------------------------------------------------- the split

  function Pow2(e: nat): (p: nat)
    ensures p > 0
  {
    if e == 0 then 1 else 2 * Pow2(e - 1)
  }

  ghost predicate IsPow2(k: int) {
    exists e: nat :: k == Pow2(e)
  }

  lemma HalfPow2(k: int)
    requires IsPow2(k) && k > 1
    ensures k % 2 == 0 && IsPow2(k / 2)
  {
    var e: nat :| k == Pow2(e);
    assert e > 0 && k / 2 == Pow2(e - 1);
  }

  /** The largest power of two smaller than n, found by doubling. */
  function SplitFrom(k: nat, n: nat): nat
    requires k > 0
    decreases n - k
  {
    if 2 * k < n then SplitFrom(2 * k, n) else k
  }

  function Split(n: nat): nat {
    SplitFrom(1, n)
  }

  lemma {:induction false} SplitFromSpec(e: nat, n: nat)
    requires Pow2(e) < n
    ensures IsPow2(SplitFrom(Pow2(e), n))
    ensures SplitFrom(Pow2(e), n) < n <= 2 * SplitFrom(Pow2(e), n)
    decreases n - Pow2(e)
  {
    if 2 * Pow2(e) < n {
      assert 2 * Pow2(e) == Pow2(e + 1);
      SplitFromSpec(e + 1, n);
    }
  }

  /** Split is the split of section 2.1.1: the power of two k with k < n <= 2k. */
  lemma SplitSpec(n: nat)
    requires n >= 2
    ensures IsPow2(Split(n)) && Split(n) < n <= 2 * Split(n)
  {
    assert Pow2(0) == 1;
    SplitFromSpec(0, n);
  }

  method ComputeSplit(n: nat) returns (k: nat)
    requires n >= 2
    ensures k == Split(n)
    ensures IsPow2(k) && k < n <= 2 * k
  {
    k := 1;
    while k * 2 < n
      invariant k > 0 && SplitFrom(k, n) == Split(n)
      decreases n - k
    {
      k := k * 2;
    }
    SplitSpec(n);
  }

  // ------------------------------------------------------ head and audit path

  /** The tree head of a non-empty list of entries. */
  function Root(sha: Sha, entries: seq<Bytes>): Digest
    requires entries != []
    decreases |entries|
  {
    if |entries| == 1 then
      Leaf(sha, entries[0])
    else
      SplitSpec(|entries|);
      var k := Split(|entries|);
      Node(sha, Root(sha, entries[..k]), Root(sha, entries[k..]))
  }

  function MerkleRoot(sha: Sha, entries: seq<Bytes>): Digest {
    if entries == [] then sha([]) else Root(sha, entries)
  }

  /** The audit path of entry i, leaf to root (section 2.1.3.1). */
  function AuditPath(sha: Sha, entries: seq<Bytes>, i: nat): seq<Digest>
    requires i < |entries|
    decreases |entries|
  {
    if |entries| == 1 then
      []
    else
      SplitSpec(|entries|);
      var k := Split(|entries|);
      if i < k then
        AuditPath(sha, entries[..k], i) + [Root(sha, entries[k..])]
      else
        AuditPath(sha, entries[k..], i - k) + [Root(sha, entries[..k])]
  }

  lemma SplitAt(sha: Sha, entries: seq<Bytes>, k: nat)
    requires |entries| >= 2 && k == Split(|entries|)
    ensures 0 < k < |entries|
    ensures Root(sha, entries) == sha([1] + Root(sha, entries[..k]) + Root(sha, entries[k..]))
  {
    SplitSpec(|entries|);
  }

  /** The first tree heads, written out: a leaf is hashed behind 0, an inner node behind 1, its left child first. */
  lemma SmallTrees(sha: Sha, a: Bytes, b: Bytes, c: Bytes)
    ensures MerkleRoot(sha, []) == sha([])
    ensures MerkleRoot(sha, [a]) == sha([0] + a)
    ensures MerkleRoot(sha, [a, b]) == sha([1] + sha([0] + a) + sha([0] + b))
    ensures MerkleRoot(sha, [a, b, c]) == sha([1] + sha([1] + sha([0] + a) + sha([0] + b)) + sha([0] + c))
  {
    assert SplitFrom(2, 3) == 2;
    var (two, three) := ([a, b], [a, b, c]);
    assert two[..1] == [a] && two[1..] == [b];
    SplitAt(sha, two, 1);
    assert three[..2] == two && three[2..] == [c];
    SplitAt(sha, three, 2);
  }

  /** How many nodes the audit path of leaf i in a tree of n leaves has. */
  function Depth(i: nat, n: nat): nat
    requires i < n
    decreases n
  {
    if n == 1 then
      0
    else
      SplitSpec(n);
      var k := Split(n);
      1 + if i < k then Depth(i, k) else Depth(i - k, n - k)
  }

  // ----------------------------------------------------------- the shift loop

  datatype ProofError = IndexOutsideTree | ProofTooLong | ProofTooShort

  /** The inner loop: drop the trailing zero bits of fn, shifting sn along. */
  function Strip(fn: int, sn: int): (int, int)
    decreases if fn < 0 then -fn else fn
  {
    if fn != 0 && fn % 2 == 0 then Strip(fn / 2, sn / 2) else (fn, sn)
  }

  /** Where one path node moves the loop's indices. */
  function NextState(fn: int, sn: int): (int, int) {
    var s := if fn % 2 == 0 && fn == sn then Strip(fn, sn) else (fn, sn);
    (s.0 / 2, s.1 / 2)
  }

  /** The hash one path node produces. */
  function NextHash(sha: Sha, fn: int, sn: int, r: Digest, p: Bytes): Digest {
    if fn % 2 != 0 || fn == sn then Node(sha, p, r) else Node(sha, r, p)
  }

  /** The outer loop from state (fn, sn, r) over the rest of the path. */
  function Climb(sha: Sha, fn: int, sn: int, r: Digest, path: seq<Bytes>): Result<Digest, ProofError>
    decreases |path|
  {
    if path == [] then
      if sn == 0 then Ok(r) else Err(ProofTooShort)
    else if sn == 0 then
      Err(ProofTooLong)
    else
      var (f, s) := NextState(fn, sn);
      Climb(sha, f, s, NextHash(sha, fn, sn, r, path[0]), path[1..])
  }

  /** What a proof implies. As in the checker, only leafIndex >= treeSize is refused up front. */
  function ImpliedRoot(sha: Sha, entry: Bytes, leafIndex: int, treeSize: int, path: seq<Bytes>)
    : Result<Digest, ProofError>
  {
    if leafIndex >= treeSize then Err(IndexOutsideTree)
    else Climb(sha, leafIndex, treeSize - 1, Leaf(sha, entry), path)
  }

  method RootFromInclusionProof(sha: Sha, entry: Bytes, leafIndex: int, treeSize: int, path: seq<Bytes>)
    returns (result: Result<Digest, ProofError>)
    ensures result == ImpliedRoot(sha, entry, leafIndex, treeSize, path)
  {
    if leafIndex >= treeSize {
      return Err(IndexOutsideTree);
    }
    var fn, sn := leafIndex, treeSize - 1;
    var r := Leaf(sha, entry);
    var i := 0;
    while i < |path|
      invariant 0 <= i <= |path|
      invariant Climb(sha, fn, sn, r, path[i..]) == ImpliedRoot(sha, entry, leafIndex, treeSize, path)
    {
      var p := path[i];
      assert path[i..][1..] == path[i + 1..];
      if sn == 0 {
        return Err(ProofTooLong);
      }
      if fn % 2 != 0 || fn == sn {
        r := Node(sha, p, r);
        if fn % 2 == 0 {
          ghost var target := Strip(fn, sn);
          while fn != 0 && fn % 2 == 0
            invariant Strip(fn, sn) == target
            decreases if fn < 0 then -fn else fn
          {
            fn, sn := fn / 2, sn / 2;
          }
        }
      } else {
        r := Node(sha, r, p);
      }
      fn, sn := fn / 2, sn / 2;
      i := i + 1;
    }
    if sn != 0 {
      return Err(ProofTooShort);
    }
    return Ok(r);
  }

  // ------------------------------- the loop, read from the root instead of the leaf

  /** The last path node is a right sibling: the leaf lies in the perfect left subtree. */
  function JoinLeft(sha: Sha, sub: Result<Digest, ProofError>, last: Bytes): Result<Digest, ProofError> {
    if sub.Ok? then Ok(Node(sha, sub.value, last)) else sub
  }

  /** The last path node is a left sibling: the leaf lies in the right subtree. */
  function JoinRight(sha: Sha, sub: Result<Digest, ProofError>, last: Bytes): Result<Digest, ProofError> {
    if sub.Ok? then Ok(Node(sha, last, sub.value)) else sub
  }

  lemma {:induction false} ClimbLeft(sha: Sha, fn: nat, sn: nat, k: nat, r: Digest, init: seq<Bytes>, last: Bytes)
    requires IsPow2(k) && fn < k <= sn < 2 * k
    ensures Climb(sha, fn, sn, r, init + [last]) == JoinLeft(sha, Climb(sha, fn, k - 1, r, init), last)
    decreases |init|
  {
    var path := init + [last];
    if init == [] {
      assert path[1..] == [];
    } else {
      assert path[0] == init[0] && path[1..] == init[1..] + [last];
      if k > 1 {
        HalfPow2(k);
        assert (k - 1) / 2 == k / 2 - 1;
        ClimbLeft(sha, fn / 2, sn / 2, k / 2, if fn % 2 != 0 then Node(sha, init[0], r) else Node(sha, r, init[0]),
                  init[1..], last);
      }
    }
  }

  /** Stripping shared trailing zeros does not see the top bit k. */
  lemma {:induction false} StripBelowTopBit(fn: int, sn: int, k: int) returns (k': int)
    requires IsPow2(k) && 0 < fn < k && sn < k
    ensures IsPow2(k') && Strip(fn + k, sn + k) == (Strip(fn, sn).0 + k', Strip(fn, sn).1 + k')
    ensures 0 < Strip(fn, sn).0 < k' && Strip(fn, sn).0 % 2 != 0
    ensures fn <= sn ==> Strip(fn, sn).0 <= Strip(fn, sn).1 < k'
    decreases fn
  {
    HalfPow2(k);
    if fn % 2 == 0 {
      assert (fn + k) / 2 == fn / 2 + k / 2 && (sn + k) / 2 == sn / 2 + k / 2;
      k' := StripBelowTopBit(fn / 2, sn / 2, k / 2);
    } else {
      k' := k;
    }
  }

  /** A power of two strips down to 1. */
  lemma {:induction false} StripPow2(k: int)
    requires IsPow2(k)
    ensures Strip(k, k) == (1, 1)
    decreases k
  {
    if k > 1 {
      HalfPow2(k);
      StripPow2(k / 2);
    } else {
      var e: nat :| k == Pow2(e);
      assert k == 1;
    }
  }

  lemma HalvesDiffer(a: int, top: int)
    requires top % 2 == 0
    ensures (a + top) / 2 == a / 2 + top / 2
  {
  }

  /** Where fn == sn is even, both strips lose the same zeros. */
  lemma RightStrip(fn: nat, k: nat) returns (f: nat, k': nat)
    requires IsPow2(k) && k < fn < 2 * k && fn % 2 == 0
    ensures IsPow2(k') && k' <= f < 2 * k'
    ensures (f, f) == NextState(fn, fn) && (f - k', f - k') == NextState(fn - k, fn - k)
  {
    HalfPow2(k);
    var top := StripBelowTopBit(fn - k, fn - k, k);
    HalfPow2(top);
    var a := Strip(fn - k, fn - k).0;
    StripSame(fn - k);
    HalvesDiffer(a, top);
    f, k' := (a + top) / 2, top / 2;
  }

  lemma {:induction false} StripSame(n: nat)
    ensures Strip(n, n).0 == Strip(n, n).1
  {
    if n != 0 && n % 2 == 0 {
      StripSame(n / 2);
    }
  }

  /** One loop step away from the left spine of the right subtree: its state, without and with the top bit. */
  lemma RightStep(fn: nat, sn: nat, k: nat) returns (f: nat, s: nat, k': nat)
    requires IsPow2(k) && k <= fn <= sn < 2 * k && sn > k
    ensures IsPow2(k') && k' <= f <= s < 2 * k'
    ensures (f, s) == NextState(fn, sn) && (f - k', s - k') == NextState(fn - k, sn - k)
  {
    if fn % 2 == 0 && fn == sn {
      f, k' := RightStrip(fn, k);
      s := f;
    } else {
      HalfPow2(k);
      HalvesDiffer(fn - k, k);
      HalvesDiffer(sn - k, k);
      f, s, k' := fn / 2, sn / 2, k / 2;
    }
  }

  lemma ClimbStep(sha: Sha, fn: int, sn: int, r: Digest, p: Bytes, rest: seq<Bytes>)
    requires sn != 0
    ensures Climb(sha, fn, sn, r, [p] + rest) ==
            Climb(sha, NextState(fn, sn).0, NextState(fn, sn).1, NextHash(sha, fn, sn, r, p), rest)
  {
    assert ([p] + rest)[1..] == rest;
  }

  /** From the leftmost leaf of a one-leaf right subtree, one node leads to the root. */
  lemma ClimbRightSpine(sha: Sha, k: nat, r: Digest, init: seq<Bytes>, last: Bytes)
    requires IsPow2(k)
    ensures Climb(sha, k, k, r, init + [last]) == JoinRight(sha, Climb(sha, 0, 0, r, init), last)
  {
    StripPow2(k);
    assert NextState(k, k) == (0, 0);
    if init == [] {
      ClimbStep(sha, k, k, r, last, []);
      assert init + [last] == [last] + [];
    } else {
      ClimbStep(sha, k, k, r, init[0], init[1..] + [last]);
      assert init + [last] == [init[0]] + (init[1..] + [last]);
    }
  }

  /** One path node away from the left spine, the loop and its right subtree take the same step. */
  lemma ClimbRightStep(sha: Sha, fn: nat, sn: nat, k: nat, r: Digest, p: Bytes, rest: seq<Bytes>)
    returns (f: nat, s: nat, k': nat, r': Digest)
    requires IsPow2(k) && k <= fn <= sn < 2 * k && sn > k
    ensures IsPow2(k') && k' <= f <= s < 2 * k'
    ensures forall last: Bytes :: Climb(sha, fn, sn, r, [p] + (rest + [last])) == Climb(sha, f, s, r', rest + [last])
    ensures Climb(sha, fn - k, sn - k, r, [p] + rest) == Climb(sha, f - k', s - k', r', rest)
  {
    f, s, k' := RightStep(fn, sn, k);
    r' := NextHash(sha, fn, sn, r, p);
    assert r' == NextHash(sha, fn - k, sn - k, r, p) by {
      HalfPow2(k);
    }
    forall last: Bytes
      ensures Climb(sha, fn, sn, r, [p] + (rest + [last])) == Climb(sha, f, s, r', rest + [last])
    {
      ClimbStep(sha, fn, sn, r, p, rest + [last]);
    }
    ClimbStep(sha, fn - k, sn - k, r, p, rest);
  }

  /** A single node cannot lead to the root from two or more leaves on the right. */
  lemma ClimbRightAlone(sha: Sha, fn: nat, sn: nat, k: nat, r: Digest, last: Bytes)
    requires IsPow2(k) && k <= fn <= sn < 2 * k && sn > k
    ensures Climb(sha, fn, sn, r, [last]) == Err(ProofTooShort) == Climb(sha, fn - k, sn - k, r, [])
  {
    var f, s, k' := RightStep(fn, sn, k);
    NilRight([last]);
    ClimbStep(sha, fn, sn, r, last, []);
  }

  lemma {:induction false} ClimbRight(sha: Sha, fn: nat, sn: nat, k: nat, r: Digest, init: seq<Bytes>, last: Bytes)
    requires IsPow2(k) && k <= fn <= sn < 2 * k
    ensures Climb(sha, fn, sn, r, init + [last]) == JoinRight(sha, Climb(sha, fn - k, sn - k, r, init), last)
    decreases |init|
  {
    if sn == k {
      ClimbRightSpine(sha, k, r, init, last);
    } else if init == [] {
      ClimbRightAlone(sha, fn, sn, k, r, last);
      assert init + [last] == [last];
    } else {
      var f, s, k', r' := ClimbRightStep(sha, fn, sn, k, r, init[0], init[1..]);
      assert init + [last] == [init[0]] + (init[1..] + [last]) && init == [init[0]] + init[1..];
      ClimbRight(sha, f, s, k', r', init[1..], last);
    }
  }

  /** The bottom-up bit loop follows the top-down recursion of section 2.1.1, for every path. */
  lemma LoopFollowsTree(sha: Sha, entry: Bytes, i: nat, n: nat, init: seq<Bytes>, last: Bytes)
    requires i < n && n >= 2
    ensures Split(n) < n
    ensures ImpliedRoot(sha, entry, i, n, init + [last]) ==
            if i < Split(n) then
              JoinLeft(sha, ImpliedRoot(sha, entry, i, Split(n), init), last)
            else
              JoinRight(sha, ImpliedRoot(sha, entry, i - Split(n), n - Split(n), init), last)
  {
    SplitSpec(n);
    var k := Split(n);
    if i < k {
      ClimbLeft(sha, i, n - 1, k, Leaf(sha, entry), init, last);
    } else {
      ClimbRight(sha, i, n - 1, k, Leaf(sha, entry), init, last);
    }
  }

  // ------------------------------------------------------------ main theorems

  /** Completeness: the audit path of section 2.1.3.1 is accepted and implies the tree head. */
  lemma {:induction false} AuditPathVerifies(sha: Sha, entries: seq<Bytes>, i: nat)
    requires i < |entries|
    ensures ImpliedRoot(sha, entries[i], i, |entries|, AuditPath(sha, entries, i)) == Ok(Root(sha, entries))
    decreases |entries|
  {
    var n := |entries|;
    if n > 1 {
      SplitSpec(n);
      var k := Split(n);
      var path := AuditPath(sha, entries, i);
      LoopFollowsTree(sha, entries[i], i, n, path[..|path| - 1], path[|path| - 1]);
      assert path == path[..|path| - 1] + [path[|path| - 1]];
      if i < k {
        assert path[..|path| - 1] == AuditPath(sha, entries[..k], i);
        AuditPathVerifies(sha, entries[..k], i);
      } else {
        assert path[..|path| - 1] == AuditPath(sha, entries[k..], i - k);
        AuditPathVerifies(sha, entries[k..], i - k);
      }
    }
  }

  /** A path is accepted exactly when it has the length of the audit path. */
  lemma {:induction false} AcceptedLength(sha: Sha, entry: Bytes, i: nat, n: nat, path: seq<Bytes>)
    requires i < n
    ensures ImpliedRoot(sha, entry, i, n, path).Ok? <==> |path| == Depth(i, n)
    decreases n
  {
    if n > 1 && path != [] {
      SplitSpec(n);
      var k := Split(n);
      var init, last := path[..|path| - 1], path[|path| - 1];
      assert path == init + [last];
      LoopFollowsTree(sha, entry, i, n, init, last);
      if i < k {
        AcceptedLength(sha, entry, i, k, init);
      } else {
        AcceptedLength(sha, entry, i - k, n - k, init);
      }
    }
  }

  /** No accepted path is longer than the base-2 logarithm of the tree size, rounded up. */
  lemma {:induction false} DepthBound(i: nat, n: nat, e: nat)
    requires i < n <= Pow2(e)
    ensures Depth(i, n) <= e
    decreases e
  {
    if n > 1 {
      SplitSpec(n);
      var k := Split(n);
      var j: nat :| k == Pow2(j);
      Pow2Increasing(j, e);
      assert k <= Pow2(e - 1);
      if i < k {
        DepthBound(i, k, e - 1);
      } else {
        DepthBound(i - k, n - k, e - 1);
      }
    }
  }

  lemma {:induction false} Pow2Increasing(j: nat, e: nat)
    requires Pow2(j) < Pow2(e)
    ensures j < e && Pow2(j) <= Pow2(e - 1)
    decreases e
  {
    if j > 0 && e > 0 {
      Pow2Increasing(j - 1, e - 1);
    }
  }

  /** The messages two hash evaluations first differ in when a proof is forged. */
  ghost function Forgery(sha: Sha, entries: seq<Bytes>, i: nat, entry: Bytes, path: seq<Bytes>): (Bytes, Bytes)
    requires i < |entries|
    requires ImpliedRoot(sha, entry, i, |entries|, path).Ok?
    decreases |entries|
  {
    var n := |entries|;
    if n == 1 then
      ([0] + entry, [0] + entries[0])
    else
      SplitSpec(n);
      var k := Split(n);
      var init, last := path[..|path| - 1], path[|path| - 1];
      assert path == init + [last];
      LoopFollowsTree(sha, entry, i, n, init, last);
      var left, right := Root(sha, entries[..k]), Root(sha, entries[k..]);
      if i < k then
        var sub := ImpliedRoot(sha, entry, i, k, init).value;
        if sub == left && last == right then Forgery(sha, entries[..k], i, entry, init)
        else ([1] + sub + last, [1] + left + right)
      else
        var sub := ImpliedRoot(sha, entry, i - k, n - k, init).value;
        if last == left && sub == right then Forgery(sha, entries[k..], i - k, entry, init)
        else ([1] + last + sub, [1] + left + right)
  }

  /** Equal node messages have equal children, whichever child has digest length. */
  lemma NodeMessageInjective(a: Bytes, b: Bytes, l: Digest, r: Digest)
    requires |a| == 32 || |b| == 32
    requires [1] + a + b == [1] + l + r
    ensures a == l && b == r
  {
    var m := [1] + a + b;
    assert |a| + |b| == 64;
    assert a == m[1..33] && l == m[1..33];
    assert b == m[33..] && r == m[33..];
  }

  /**
   Soundness: a path that implies the tree head of entries proves exactly
   entry i by exactly its audit path, or Forgery is a SHA-256 collision.
   */
  lemma {:induction false} InclusionSound(sha: Sha, entries: seq<Bytes>, i: nat, entry: Bytes, path: seq<Bytes>)
    requires i < |entries|
    requires ImpliedRoot(sha, entry, i, |entries|, path) == Ok(Root(sha, entries))
    ensures || (entry == entries[i] && path == AuditPath(sha, entries, i))
            || Collides(sha, Forgery(sha, entries, i, entry, path).0, Forgery(sha, entries, i, entry, path).1)
    decreases |entries|
  {
    var n := |entries|;
    if n == 1 {
      AcceptedLength(sha, entry, i, n, path);
      if [0] + entry == [0] + entries[0] {
        assert entry == ([0] + entry)[1..];
      }
    } else {
      SplitSpec(n);
      var k := Split(n);
      var init, last := path[..|path| - 1], path[|path| - 1];
      assert path == init + [last];
      LoopFollowsTree(sha, entry, i, n, init, last);
      var left, right := Root(sha, entries[..k]), Root(sha, entries[k..]);
      if i < k {
        var sub := ImpliedRoot(sha, entry, i, k, init).value;
        if sub == left && last == right {
          InclusionSound(sha, entries[..k], i, entry, init);
        } else if [1] + sub + last == [1] + left + right {
          NodeMessageInjective(sub, last, left, right);
        }
      } else {
        var sub := ImpliedRoot(sha, entry, i - k, n - k, init).value;
        if last == left && sub == right {
          InclusionSound(sha, entries[k..], i - k, entry, init);
        } else if [1] + last + sub == [1] + left + right {
          NodeMessageInjective(last, sub, left, right);
        }
      }
    }
  }

  /** The messages at which two different lists of one size first share a digest. */
  ghost function RootCollision(sha: Sha, a: seq<Bytes>, b: seq<Bytes>): (Bytes, Bytes)
    requires |a| == |b| > 0
    decreases |a|
  {
    if |a| == 1 then
      ([0] + a[0], [0] + b[0])
    else
      SplitSpec(|a|);
      var k := Split(|a|);
      var (al, ar) := (Root(sha, a[..k]), Root(sha, a[k..]));
      var (bl, br) := (Root(sha, b[..k]), Root(sha, b[k..]));
      if (al, ar) != (bl, br) then ([1] + al + ar, [1] + bl + br)
      else if a[..k] != b[..k] then RootCollision(sha, a[..k], b[..k])
      else RootCollision(sha, a[k..], b[k..])
  }

  /** A tree head binds the whole list: one head, one size, one list, or an explicit collision. */
  lemma {:induction false} RootBinds(sha: Sha, a: seq<Bytes>, b: seq<Bytes>)
    requires |a| == |b| > 0 && Root(sha, a) == Root(sha, b) && a != b
    ensures Collides(sha, RootCollision(sha, a, b).0, RootCollision(sha, a, b).1)
    decreases |a|
  {
    if |a| == 1 {
      assert a == [a[0]] && b == [b[0]];
      assert ([0] + a[0])[1..] == a[0] && ([0] + b[0])[1..] == b[0];
    } else {
      SplitSpec(|a|);
      var k := Split(|a|);
      var (al, ar) := (Root(sha, a[..k]), Root(sha, a[k..]));
      var (bl, br) := (Root(sha, b[..k]), Root(sha, b[k..]));
      if (al, ar) != (bl, br) {
        if [1] + al + ar == [1] + bl + br {
          NodeMessageInjective(al, ar, bl, br);
        }
      } else if a[..k] != b[..k] {
        RootBinds(sha, a[..k], b[..k]);
      } else {
        assert a == a[..k] + a[k..] && b == b[..k] + b[k..];
        RootBinds(sha, a[k..], b[k..]);
      }
    }
  }

  // ------------------------------------------------ callers the guard lets through

  /** merkle.py's own checker: same loop, but an index outside 0 .. treeSize - 1 is refused. */
  predicate VerifyInclusion(sha: Sha, entry: Bytes, index: int, treeSize: int, proof: seq<Bytes>, root: Digest) {
    0 <= index < treeSize && ImpliedRoot(sha, entry, index, treeSize, proof) == Ok(root)
  }

  method CheckInclusion(sha: Sha, entry: Bytes, index: int, treeSize: int, proof: seq<Bytes>, root: Digest)
    returns (ok: bool)
    ensures ok <==> VerifyInclusion(sha, entry, index, treeSize, proof, root)
  {
    if !(0 <= index < treeSize) {
      return false;
    }
    var fn, sn := index, treeSize - 1;
    var r := Leaf(sha, entry);
    var i := 0;
    while i < |proof|
      invariant 0 <= i <= |proof|
      invariant Climb(sha, fn, sn, r, proof[i..]) == ImpliedRoot(sha, entry, index, treeSize, proof)
    {
      var p := proof[i];
      assert proof[i..][1..] == proof[i + 1..];
      if sn == 0 {
        return false;
      }
      if fn % 2 != 0 || fn == sn {
        r := Node(sha, p, r);
        if fn % 2 == 0 {
          ghost var target := Strip(fn, sn);
          while fn % 2 == 0 && fn != 0
            invariant Strip(fn, sn) == target
            decreases if fn < 0 then -fn else fn
          {
            fn, sn := fn / 2, sn / 2;
          }
        }
      } else {
        r := Node(sha, r, p);
      }
      fn, sn := fn / 2, sn / 2;
      i := i + 1;
    }
    return sn == 0 && r == root;
  }

  /** It accepts exactly the audit paths of the entries, each at its own index, or two named messages collide. */
  lemma VerifiedExactly(sha: Sha, entries: seq<Bytes>, i: int, entry: Bytes, path: seq<Bytes>)
    requires entries != []
    ensures 0 <= i < |entries| ==>
              VerifyInclusion(sha, entries[i], i, |entries|, AuditPath(sha, entries, i), MerkleRoot(sha, entries))
    ensures VerifyInclusion(sha, entry, i, |entries|, path, MerkleRoot(sha, entries)) ==>
              && 0 <= i < |entries|
              && (|| (entry == entries[i] && path == AuditPath(sha, entries, i))
                  || Collides(sha, Forgery(sha, entries, i, entry, path).0, Forgery(sha, entries, i, entry, path).1))
  {
    if 0 <= i < |entries| {
      AuditPathVerifies(sha, entries, i);
      if VerifyInclusion(sha, entry, i, |entries|, path, MerkleRoot(sha, entries)) {
        InclusionSound(sha, entries, i, entry, path);
      }
    }
  }

  /** The perfect tree with as many levels as n leaves need. */
  function PerfectSize(n: nat): (p: nat)
    requires n > 0
    ensures p > 0
  {
    Pow2(BitLength(n - 1))
  }

  /** The number the e lowest bits of a two's-complement integer spell. */
  function LowBits(i: int, e: nat): (low: nat)
    ensures low < Pow2(e)
    ensures e > 0 ==> low % 2 == i % 2
    decreases e
  {
    if e == 0 then 0 else 2 * LowBits(i / 2, e - 1) + i % 2
  }

  lemma MultiplesApart(d: nat, p: int, q: int)
    requires p > q
    ensures d * p >= d * q + d
  {
    assert d * p >= d * (q + 1) == d * q + d;
  }

  lemma RemainderIs(i: int, d: nat, q: int, r: nat)
    requires r < d && i == d * q + r
    ensures i % d == r
  {
    if i / d > q {
      MultiplesApart(d, i / d, q);
    } else if i / d < q {
      MultiplesApart(d, q, i / d);
    }
  }

  lemma HalfRemainder(i: int, half: nat, low: nat)
    requires half > 0 && low == (i / 2) % half
    ensures i % (2 * half) == 2 * low + i % 2
  {
    var q := (i / 2) / half;
    assert i / 2 == half * q + low;
    assert (2 * half) * q == 2 * (half * q);
    RemainderIs(i, 2 * half, q, 2 * low + i % 2);
  }

  lemma {:induction false} LowBitsIsRemainder(i: int, e: nat)
    ensures LowBits(i, e) == i % Pow2(e)
    decreases e
  {
    if e > 0 {
      LowBitsIsRemainder(i / 2, e - 1);
      HalfRemainder(i, Pow2(e - 1), LowBits(i / 2, e - 1));
    }
  }

  lemma NoStrip(fn: int, sn: int)
    requires fn != sn || fn % 2 != 0
    ensures NextState(fn, sn) == (fn / 2, sn / 2)
  {
  }

  /** In the perfect tree of 2^(e+1) leaves one step drops the lowest bit. */
  lemma NextPerfect(low: nat, bit: nat, half: nat)
    requires low < half && bit < 2
    ensures NextState(2 * low + bit, 2 * half - 1) == (low, half - 1)
  {
    assert (2 * low + bit) / 2 == low && (2 * half - 1) / 2 == half - 1;
    NoStrip(2 * low + bit, 2 * half - 1);
  }

  lemma ClimbOnce(sha: Sha, fn: int, sn: int, f: int, s: int, r: Digest, path: seq<Bytes>)
    requires sn != 0 && path != [] && NextState(fn, sn) == (f, s)
    ensures Climb(sha, fn, sn, r, path) == Climb(sha, f, s, NextHash(sha, fn, sn, r, path[0]), path[1..])
  {
  }

  /** Below zero the loop never meets fn == sn: it moves as in the perfect tree, at the index its low bits spell. */
  lemma {:induction false} ClimbBelowZero(sha: Sha, fn: int, sn: nat, at: nat, top: nat, r: Digest, path: seq<Bytes>)
    requires fn < 0 && at == LowBits(fn, BitLength(sn)) && top == Pow2(BitLength(sn)) - 1
    ensures Climb(sha, fn, sn, r, path) == Climb(sha, at, top, r, path)
    decreases |path|
  {
    if path != [] && sn != 0 {
      var low, half := LowBits(fn / 2, BitLength(sn / 2)), Pow2(BitLength(sn / 2));
      assert at == 2 * low + fn % 2 && top == 2 * half - 1;
      NoStrip(fn, sn);
      NextPerfect(low, fn % 2, half);
      ClimbOnce(sha, fn, sn, fn / 2, sn / 2, r, path);
      ClimbOnce(sha, at, top, low, half - 1, r, path);
      ClimbBelowZero(sha, fn / 2, sn / 2, low, half - 1, NextHash(sha, fn, sn, r, path[0]), path[1..]);
    }
  }

  /** The index a negative one is read as: i modulo the size of the perfect tree. */
  function Wrapped(i: int, n: nat): (at: nat)
    requires n > 0
    ensures at < PerfectSize(n)
  {
    LowBits(i, BitLength(n - 1))
  }

  /** A negative index is read modulo the size of the perfect tree, whatever the entry and the path. */
  lemma NegativeIndexWraps(sha: Sha, entry: Bytes, i: int, n: nat, path: seq<Bytes>)
    requires i < 0 < n
    ensures ImpliedRoot(sha, entry, i, n, path) == ImpliedRoot(sha, entry, Wrapped(i, n), PerfectSize(n), path)
    ensures Wrapped(i, n) == i % PerfectSize(n)
  {
    ClimbBelowZero(sha, i, n - 1, Wrapped(i, n), PerfectSize(n) - 1, Leaf(sha, entry), path);
    LowBitsIsRemainder(i, BitLength(n - 1));
  }

  lemma TopHalf(e: nat)
    requires e > 0
    ensures Pow2(e) >= 2 && Split(Pow2(e)) == Pow2(e - 1)
  {
    SplitSpec(Pow2(e));
    var j: nat :| Split(Pow2(e)) == Pow2(j);
    Pow2Increasing(j, e);
  }

  lemma {:induction false} PerfectDepth(e: nat, i: nat)
    requires i < Pow2(e)
    ensures Depth(i, Pow2(e)) == e
  {
    if e > 0 {
      TopHalf(e);
      PerfectDepth(e - 1, if i < Pow2(e - 1) then i else i - Pow2(e - 1));
    }
  }

  lemma StripNegative(n: int)
    requires n < 0
    ensures Strip(n, n).1 < 0
    decreases -n
  {
    if n % 2 == 0 {
      StripNegative(n / 2);
    }
  }

  /** A tree size of zero or less never shifts down to 0. */
  lemma {:induction false} ClimbNoTree(sha: Sha, fn: int, sn: int, r: Digest, path: seq<Bytes>)
    requires sn < 0
    ensures Climb(sha, fn, sn, r, path) == Err(ProofTooShort)
    decreases |path|
  {
    if path != [] {
      StripNegative(sn);
      var (f, s) := NextState(fn, sn);
      ClimbNoTree(sha, f, s, NextHash(sha, fn, sn, r, path[0]), path[1..]);
    }
  }

  /**
   The black-box checker tests only leafIndex >= treeSize: a negative index into
   a tree that has entries is let through, with exactly the paths of as many
   nodes as treeSize - 1 has bits. merkle.py's checker refuses it.
   */
  lemma NegativeIndexAccepted(sha: Sha, entry: Bytes, i: int, n: int, path: seq<Bytes>, root: Digest)
    requires i < 0
    ensures ImpliedRoot(sha, entry, i, n, path).Ok? <==> n > 0 && |path| == BitLength(n - 1)
    ensures !VerifyInclusion(sha, entry, i, n, path, root)
  {
    if n > 0 {
      NegativeIndexWraps(sha, entry, i, n, path);
      AcceptedLength(sha, entry, Wrapped(i, n), PerfectSize(n), path);
      PerfectDepth(BitLength(n - 1), Wrapped(i, n));
    } else if i < n {
      ClimbNoTree(sha, i, n - 1, Leaf(sha, entry), path);
    }
  }

  // ------------------------------------- what a path of the perfect tree proves

  /** The tree has room for as many levels as the perfect tree. */
  lemma SplitWithin(n: nat, e: nat)
    requires 2 <= n <= Pow2(e)
    ensures e > 0 && 0 < Split(n) < n && n - Split(n) <= Split(n) <= Pow2(e - 1)
    ensures Split(n) < Pow2(e - 1) ==> e > 1 && Split(n) <= Pow2(e - 2)
  {
    SplitSpec(n);
    var j: nat :| Split(n) == Pow2(j);
    Pow2Increasing(j, e);
    if Split(n) < Pow2(e - 1) {
      Pow2Increasing(j, e - 1);
    }
  }

  /** The index inside its half of the perfect tree. */
  function Below(e: nat, at: nat): (below: nat)
    requires e > 0 && at < Pow2(e)
    ensures below < Pow2(e - 1)
  {
    if at < Pow2(e - 1) then at else at - Pow2(e - 1)
  }

  /** The children of a node on the path: the digest below it and the path's own node. */
  function Pair(left: bool, below: Bytes, sibling: Bytes): (Bytes, Bytes) {
    if left then (below, sibling) else (sibling, below)
  }

  /** The root a path of e nodes implies in the perfect tree of e levels, from the top down. */
  function PerfectRoot(sha: Sha, entry: Bytes, e: nat, at: nat, path: seq<Bytes>): Digest
    requires |path| == e && at < Pow2(e)
    decreases e
  {
    if e == 0 then Leaf(sha, entry)
    else
      var (l, r) := Pair(at < Pow2(e - 1), PerfectRoot(sha, entry, e - 1, Below(e, at), path[..e - 1]), path[e - 1]);
      Node(sha, l, r)
  }

  lemma {:induction false} PerfectRootIsImplied(sha: Sha, entry: Bytes, e: nat, at: nat, path: seq<Bytes>)
    requires |path| == e && at < Pow2(e)
    ensures ImpliedRoot(sha, entry, at, Pow2(e), path) == Ok(PerfectRoot(sha, entry, e, at, path))
    decreases e
  {
    if e > 0 {
      TopHalf(e);
      assert path == path[..e - 1] + [path[e - 1]];
      LoopFollowsTree(sha, entry, at, Pow2(e), path[..e - 1], path[e - 1]);
      PerfectRootIsImplied(sha, entry, e - 1, Below(e, at), path[..e - 1]);
    }
  }

  /** The messages at which such a path and the tree of the entries first differ. */
  ghost function LevelForgery(sha: Sha, entries: seq<Bytes>, e: nat, at: nat, entry: Bytes, path: seq<Bytes>)
    : (Bytes, Bytes)
    requires 0 < |entries| <= Pow2(e) && at < Pow2(e) && |path| == e
    decreases e
  {
    if e == 0 then ([0] + entry, [0] + entries[0])
    else
      var init := path[..e - 1];
      var below := PerfectRoot(sha, entry, e - 1, Below(e, at), init);
      var (l, r) := Pair(at < Pow2(e - 1), below, path[e - 1]);
      if |entries| == 1 then ([1] + l + r, [0] + entries[0])
      else
        SplitWithin(|entries|, e);
        var k := Split(|entries|);
        var (left, right) := (Root(sha, entries[..k]), Root(sha, entries[k..]));
        if l != left || r != right then ([1] + l + r, [1] + left + right)
        else if at < Pow2(e - 1) then LevelForgery(sha, entries[..k], e - 1, Below(e, at), entry, init)
        else LevelForgery(sha, entries[k..], e - 1, Below(e, at), entry, init)
  }

  /** What a path proves: the entry at the index, on the lowest level, by its audit path. */
  ghost predicate Proves(sha: Sha, entries: seq<Bytes>, e: nat, at: nat, entry: Bytes, path: seq<Bytes>) {
    at < |entries| && Depth(at, |entries|) == e && entry == entries[at] && path == AuditPath(sha, entries, at)
  }

  lemma StepLeft(sha: Sha, entries: seq<Bytes>, k: nat, at: nat)
    requires |entries| >= 2 && k == Split(|entries|) && at < k < |entries|
    ensures Depth(at, |entries|) == 1 + Depth(at, k) && entries[at] == entries[..k][at]
    ensures AuditPath(sha, entries, at) == AuditPath(sha, entries[..k], at) + [Root(sha, entries[k..])]
  {
  }

  lemma StepRight(sha: Sha, entries: seq<Bytes>, k: nat, at: nat)
    requires |entries| >= 2 && k == Split(|entries|) && k <= at < |entries|
    ensures Depth(at, |entries|) == 1 + Depth(at - k, |entries| - k) && entries[at] == entries[k..][at - k]
    ensures AuditPath(sha, entries, at) == AuditPath(sha, entries[k..], at - k) + [Root(sha, entries[..k])]
  {
  }

  lemma ProvesFromLeft(sha: Sha, entries: seq<Bytes>, k: nat, e: nat, at: nat, entry: Bytes, path: seq<Bytes>)
    requires |entries| >= 2 && k == Split(|entries|) < |entries| && |path| == e > 0
    requires Proves(sha, entries[..k], e - 1, at, entry, path[..e - 1]) && path[e - 1] == Root(sha, entries[k..])
    ensures Proves(sha, entries, e, at, entry, path)
  {
    StepLeft(sha, entries, k, at);
    assert path == path[..e - 1] + [path[e - 1]];
  }

  lemma ProvesFromRight(sha: Sha, entries: seq<Bytes>, k: nat, e: nat, at: nat, entry: Bytes, path: seq<Bytes>)
    requires |entries| >= 2 && k == Split(|entries|) <= at && k < |entries| && |path| == e > 0
    requires Proves(sha, entries[k..], e - 1, at - k, entry, path[..e - 1]) && path[e - 1] == Root(sha, entries[..k])
    ensures Proves(sha, entries, e, at, entry, path)
  {
    assert at - k < |entries[k..]|;
    StepRight(sha, entries, k, at);
    assert path == path[..e - 1] + [path[e - 1]];
  }

  /** A right subtree deep enough for the path leaves a full left half. */
  lemma FullHalf(n: nat, e: nat, at: nat)
    requires 2 <= n <= Pow2(e) && e > 0 && Split(n) < n && at < n - Split(n) && Depth(at, n - Split(n)) == e - 1
    ensures Split(n) == Pow2(e - 1)
  {
    SplitWithin(n, e);
    if Split(n) < Pow2(e - 1) {
      DepthBound(at, n - Split(n), e - 2);
    }
  }

  lemma LowestLevel(sha: Sha, entries: seq<Bytes>, entry: Bytes)
    requires |entries| == 1 && Leaf(sha, entry) == Leaf(sha, entries[0])
    ensures entry == entries[0] || Collides(sha, [0] + entry, [0] + entries[0])
  {
    if [0] + entry == [0] + entries[0] {
      CancelLeft([0], entry, entries[0]);
    }
  }

  /** Node messages collide with a leaf message, or with a node message of other children. */
  lemma NodesDiffer(sha: Sha, l: Bytes, r: Bytes, left: Digest, right: Digest)
    requires (|l| == 32 || |r| == 32) && Node(sha, l, r) == Node(sha, left, right) && (l != left || r != right)
    ensures Collides(sha, [1] + l + r, [1] + left + right)
  {
    if [1] + l + r == [1] + left + right {
      NodeMessageInjective(l, r, left, right);
    }
  }

  lemma LeafIsNoNode(sha: Sha, l: Bytes, r: Bytes, entry: Bytes)
    requires Node(sha, l, r) == Leaf(sha, entry)
    ensures Collides(sha, [1] + l + r, [0] + entry)
  {
    assert ([1] + l + r)[0] != ([0] + entry)[0];
  }

  lemma FromBelow(sha: Sha, entries: seq<Bytes>, k: nat, e: nat, at: nat, entry: Bytes, path: seq<Bytes>)
    requires 2 <= |entries| <= Pow2(e) && e > 0 && at < Pow2(e) && |path| == e
    requires k == Split(|entries|) && 0 < k < |entries|
    requires if at < Pow2(e - 1)
             then Proves(sha, entries[..k], e - 1, Below(e, at), entry, path[..e - 1]) &&
                  path[e - 1] == Root(sha, entries[k..])
             else Proves(sha, entries[k..], e - 1, Below(e, at), entry, path[..e - 1]) &&
                  path[e - 1] == Root(sha, entries[..k])
    ensures Proves(sha, entries, e, at, entry, path)
  {
    if at < Pow2(e - 1) {
      ProvesFromLeft(sha, entries, k, e, at, entry, path);
    } else {
      FullHalf(|entries|, e, Below(e, at));
      ProvesFromRight(sha, entries, k, e, at, entry, path);
    }
  }

  /** Soundness level by level: trees of fewer levels than the path has can only be met by a collision. */
  lemma {:induction false} LevelSound(sha: Sha, entries: seq<Bytes>, e: nat, at: nat, entry: Bytes, path: seq<Bytes>)
    requires 0 < |entries| <= Pow2(e) && at < Pow2(e) && |path| == e
    requires PerfectRoot(sha, entry, e, at, path) == Root(sha, entries)
    ensures || Proves(sha, entries, e, at, entry, path)
            || Collides(sha, LevelForgery(sha, entries, e, at, entry, path).0,
                        LevelForgery(sha, entries, e, at, entry, path).1)
    decreases e
  {
    if e == 0 {
      LowestLevel(sha, entries, entry);
    } else {
      var init := path[..e - 1];
      var (l, r) := Pair(at < Pow2(e - 1), PerfectRoot(sha, entry, e - 1, Below(e, at), init), path[e - 1]);
      if |entries| == 1 {
        LeafIsNoNode(sha, l, r, entries[0]);
      } else {
        SplitWithin(|entries|, e);
        var k := Split(|entries|);
        var half := if at < Pow2(e - 1) then entries[..k] else entries[k..];
        if l != Root(sha, entries[..k]) || r != Root(sha, entries[k..]) {
          NodesDiffer(sha, l, r, Root(sha, entries[..k]), Root(sha, entries[k..]));
        } else {
          LevelSound(sha, half, e - 1, Below(e, at), entry, init);
          if Proves(sha, half, e - 1, Below(e, at), entry, init) {
            FromBelow(sha, entries, k, e, at, entry, path);
          }
        }
      }
    }
  }

  lemma JoinPerfect(sha: Sha, entry: Bytes, e: nat, at: nat, init: seq<Bytes>, last: Bytes)
    requires e > 0 && at < Pow2(e) && |init| == e - 1
    ensures var (l, r) := Pair(at < Pow2(e - 1), PerfectRoot(sha, entry, e - 1, Below(e, at), init), last);
            PerfectRoot(sha, entry, e, at, init + [last]) == Node(sha, l, r)
  {
    assert (init + [last])[..e - 1] == init;
  }

  /** The audit path of an entry leads to the root in the perfect tree of e levels. */
  ghost predicate Leads(sha: Sha, entries: seq<Bytes>, e: nat, at: nat, entry: Bytes, path: seq<Bytes>)
    requires at < Pow2(e)
  {
    entries != [] && |path| == e && PerfectRoot(sha, entry, e, at, path) == Root(sha, entries)
  }

  lemma LeadsLeft(sha: Sha, entries: seq<Bytes>, k: nat, e: nat, at: nat)
    requires 2 <= |entries| && k == Split(|entries|) && e > 0 && at < Pow2(e - 1) && at < k < |entries|
    requires Leads(sha, entries[..k], e - 1, at, entries[at], AuditPath(sha, entries[..k], at))
    ensures Leads(sha, entries, e, at, entries[at], AuditPath(sha, entries, at))
  {
    StepLeft(sha, entries, k, at);
    JoinPerfect(sha, entries[at], e, at, AuditPath(sha, entries[..k], at), Root(sha, entries[k..]));
  }

  lemma LeadsRight(sha: Sha, entries: seq<Bytes>, k: nat, e: nat, at: nat)
    requires 2 <= |entries| && e > 0 && k == Split(|entries|) == Pow2(e - 1) && k <= at < |entries| <= Pow2(e)
    requires Leads(sha, entries[k..], e - 1, at - k, entries[at], AuditPath(sha, entries[k..], at - k))
    ensures Leads(sha, entries, e, at, entries[at], AuditPath(sha, entries, at))
  {
    StepRight(sha, entries, k, at);
    JoinPerfect(sha, entries[at], e, at, AuditPath(sha, entries[k..], at - k), Root(sha, entries[..k]));
  }

  /** An entry on the lowest level is proved in the perfect tree by its audit path. */
  lemma {:induction false} LevelComplete(sha: Sha, entries: seq<Bytes>, e: nat, at: nat)
    requires at < |entries| <= Pow2(e) && Depth(at, |entries|) == e
    ensures Leads(sha, entries, e, at, entries[at], AuditPath(sha, entries, at))
    decreases e
  {
    if e > 0 {
      var k := Split(|entries|);
      SplitWithin(|entries|, e);
      if at < k {
        StepLeft(sha, entries, k, at);
        LevelComplete(sha, entries[..k], e - 1, at);
        LeadsLeft(sha, entries, k, e, at);
      } else {
        StepRight(sha, entries, k, at);
        FullHalf(|entries|, e, at - k);
        LevelComplete(sha, entries[k..], e - 1, at - k);
        LeadsRight(sha, entries, k, e, at);
      }
    }
  }

  lemma {:induction false} BitLengthBounds(n: nat)
    ensures n < Pow2(BitLength(n))
  {
    if n > 0 {
      BitLengthBounds(n / 2);
    }
  }

  /**
   A negative index proves entry i mod P, P the size of the perfect tree, which
   is then inside the tree and on its lowest level, by exactly its audit path;
   or two named messages collide. Every such entry is proved.
   */
  lemma NegativeIndexProves(sha: Sha, entries: seq<Bytes>, i: int, entry: Bytes, path: seq<Bytes>)
    requires i < 0 < |entries|
    ensures var (n, at, e) := (|entries|, Wrapped(i, |entries|), BitLength(|entries| - 1));
            && (at < n && Depth(at, n) == e ==>
                  ImpliedRoot(sha, entries[at], i, n, AuditPath(sha, entries, at)) == Ok(Root(sha, entries)))
            && (ImpliedRoot(sha, entry, i, n, path) == Ok(Root(sha, entries)) ==>
                  || Proves(sha, entries, e, at, entry, path)
                  || (&& n <= Pow2(e) && |path| == e
                      && Collides(sha, LevelForgery(sha, entries, e, at, entry, path).0,
                                  LevelForgery(sha, entries, e, at, entry, path).1)))
  {
    var (n, at, e) := (|entries|, Wrapped(i, |entries|), BitLength(|entries| - 1));
    BitLengthBounds(n - 1);
    if at < n && Depth(at, n) == e {
      NegativeIndexWraps(sha, entries[at], i, n, AuditPath(sha, entries, at));
      LevelComplete(sha, entries, e, at);
      PerfectRootIsImplied(sha, entries[at], e, at, AuditPath(sha, entries, at));
    }
    if ImpliedRoot(sha, entry, i, n, path) == Ok(Root(sha, entries)) {
      NegativeIndexAccepted(sha, entry, i, n, path, Root(sha, entries));
      NegativeIndexWraps(sha, entry, i, n, path);
      PerfectRootIsImplied(sha, entry, e, at, path);
      LevelSound(sha, entries, e, at, entry, path);
    }
  }
}
