/**
 * The bucket array of ADS_set seen as a value: one chain per bucket, each
 * chain a sequence of keys listed head first. The class in adsset.dfy keeps
 * its table in an array of such chains; the functions here say what its
 * operations do to that array, and the lemmas say why they keep the set
 * invariant (every key in bucket hash(k) % bucket count, no key twice, the
 * live-key counter equal to the total chain length).
 */
module Table {

  /** The keys of all chains, bucket 0 first and each chain head first:
      the order in which the set's iterator visits them. */
  function Flatten<K>(b: seq<seq<K>>): seq<K>
  {
    if b == [] then [] else Flatten(b[..|b| - 1]) + b[|b| - 1]
  }

  /** The number of keys in the buckets before bucket q: the position, in
      iteration order, of the head of bucket q. */
  function Offset<K>(b: seq<seq<K>>, q: nat): nat
    requires q <= |b|
  {
    |Flatten(b[..q])|
  }

  /** The set of keys listed in s. */
  function Members<K>(s: seq<K>): set<K>
  {
    set x | x in s
  }

  /** The abstract value of a table: the set of keys it stores. */
  function KeySet<K>(b: seq<seq<K>>): set<K>
  {
    Members(Flatten(b))
  }

  /** The key at position i of s occurs nowhere else in s. */
  ghost predicate Once<K>(s: seq<K>, i: nat)
    requires i < |s|
  {
    multiset(s)[s[i]] == 1
  }

  /** No key occurs twice. */
  ghost predicate Unique<K>(s: seq<K>)
  {
    forall i :: 0 <= i < |s| ==> Once(s, i)
  }

  /** Every key of chain i hashes to bucket i. */
  predicate Homed<K>(b: seq<seq<K>>, i: nat, hash: K -> nat)
    requires i < |b|
  {
    forall j :: 0 <= j < |b[i]| ==> hash(b[i][j]) % |b| == i
  }

  /** Every key sits in the bucket its hash selects. */
  predicate Placed<K>(b: seq<seq<K>>, hash: K -> nat)
  {
    forall i :: 0 <= i < |b| ==> Homed(b, i, hash)
  }

  /** The invariant of a table holding n live keys. */
  ghost predicate TableInv<K>(b: seq<seq<K>>, hash: K -> nat, n: nat)
  {
    |b| > 0 && Placed(b, hash) && Unique(Flatten(b)) && |Flatten(b)| == n
  }

  /** A freshly allocated table of m buckets, all chains empty. */
  function EmptyTable<K>(m: nat): (r: seq<seq<K>>)
    ensures |r| == m && Flatten(r) == []
  {
    var r := seq(m, _ => []);
    FlattenAllEmpty(r);
    r
  }

  /** The bucket index of key k in a table of m buckets (hash_idx). */
  function Slot<K>(k: K, m: nat, hash: K -> nat): (r: nat)
    requires m > 0
    ensures r < m
  {
    hash(k) % m
  }

  /** The table after a new node holding k is linked in front of the chain
      of k's bucket (insert_unchecked without its growth check). */
  function PushFront<K>(b: seq<seq<K>>, k: K, hash: K -> nat): (r: seq<seq<K>>)
    requires |b| > 0
    ensures |r| == |b|
    ensures multiset(Flatten(r)) == multiset(Flatten(b)) + multiset{k}
    ensures |Flatten(r)| == |Flatten(b)| + 1
    ensures Placed(b, hash) ==> Placed(r, hash)
  {
    var p := Slot(k, |b|, hash);
    FrontLinkFacts(b, k, hash);
    b[p := [k] + b[p]]
  }

  /** The table obtained by front-linking keys into b one after the other,
      in the order they are listed (the re-insertion loop of rehash). */
  function Distribute<K>(keys: seq<K>, b: seq<seq<K>>, hash: K -> nat): (r: seq<seq<K>>)
    requires |b| > 0
    ensures |r| == |b|
    ensures multiset(Flatten(r)) == multiset(Flatten(b)) + multiset(keys)
    ensures |Flatten(r)| == |Flatten(b)| + |keys|
    ensures Placed(b, hash) ==> Placed(r, hash)
    decreases |keys|
  {
    if keys == [] then b
    else
      var n := |keys| - 1;
      assert keys == keys[..n] + [keys[n]];
      PushFront(Distribute(keys[..n], b, hash), keys[n], hash)
  }

  /** A chain with its first node holding k unlinked; unchanged if no node
      holds k. */
  function Unlinked<K(==)>(c: seq<K>, k: K): (r: seq<K>)
    ensures k in c ==> multiset(r) + multiset{k} == multiset(c)
    ensures k !in c ==> r == c
    ensures multiset(r) <= multiset(c)
  {
    if c == [] then []
    else
      assert c == [c[0]] + c[1..];
      if c[0] == k then c[1..]
      else [c[0]] + Unlinked(c[1..], k)
  }

  // ---------------------------------------------------------------------
  // Iteration order

  lemma FlattenAllEmpty<K>(b: seq<seq<K>>)
    requires forall q :: 0 <= q < |b| ==> b[q] == []
    ensures Flatten(b) == []
  {
    if b != [] {
      FlattenAllEmpty(b[..|b| - 1]);
    }
  }

  lemma FlattenStep<K>(b: seq<seq<K>>, q: nat)
    requires q < |b|
    ensures Flatten(b[..q + 1]) == Flatten(b[..q]) + b[q]
  {
    assert b[..q + 1][..q] == b[..q];
  }

  /** The keys of the first q buckets come first in iteration order. */
  lemma {:induction false} FlattenPrefix<K>(b: seq<seq<K>>, q: nat)
    requires q <= |b|
    ensures Flatten(b[..q]) <= Flatten(b)
  {
    if q < |b| {
      var n := |b| - 1;
      assert b[..n][..q] == b[..q];
      FlattenPrefix(b[..n], q);
      assert b[..n] == b[..|b| - 1];
    } else {
      assert b[..q] == b;
    }
  }

  lemma OffsetMono<K>(b: seq<seq<K>>, q: nat, r: nat)
    requires q <= r <= |b|
    ensures Offset(b, q) <= Offset(b, r)
  {
    assert b[..r][..q] == b[..q];
    FlattenPrefix(b[..r], q);
  }

  /** The key at position Offset(b, q) + j of the iteration order is the
      j-th key of chain q. */
  lemma FlattenAt<K>(b: seq<seq<K>>, q: nat, j: nat)
    requires q < |b| && j < |b[q]|
    ensures Offset(b, q) + j < |Flatten(b)|
    ensures Flatten(b)[Offset(b, q) + j] == b[q][j]
  {
    FlattenStep(b, q);
    FlattenPrefix(b, q + 1);
    assert Flatten(b[..q + 1])[Offset(b, q) + j] == b[q][j];
  }

  /** The whole table is iterated once bucket |b| is reached. */
  lemma OffsetEnd<K>(b: seq<seq<K>>)
    ensures Offset(b, |b|) == |Flatten(b)|
  {
    assert b[..|b|] == b;
  }

  /** Skipping empty buckets after bucket b0 does not advance the position. */
  lemma {:induction false} OffsetSkip<K>(b: seq<seq<K>>, b0: nat, q: nat)
    requires b0 < q <= |b|
    requires forall r :: b0 < r < q ==> b[r] == []
    ensures Offset(b, q) == Offset(b, b0) + |b[b0]|
  {
    if q == b0 + 1 {
      FlattenStep(b, b0);
    } else {
      OffsetSkip(b, b0, q - 1);
      FlattenStep(b, q - 1);
    }
  }

  /** Distinct nodes have distinct positions in iteration order. */
  lemma OffsetInjective<K>(b: seq<seq<K>>, q1: nat, j1: nat, q2: nat, j2: nat)
    requires q1 < |b| && j1 < |b[q1]| && q2 < |b| && j2 < |b[q2]|
    requires Offset(b, q1) + j1 == Offset(b, q2) + j2
    ensures q1 == q2 && j1 == j2
  {
    if q1 < q2 {
      FlattenStep(b, q1);
      OffsetMono(b, q1 + 1, q2);
    } else if q2 < q1 {
      FlattenStep(b, q2);
      OffsetMono(b, q2 + 1, q1);
    }
  }

  // ---------------------------------------------------------------------
  // Membership

  lemma {:induction false} InFlatten<K>(b: seq<seq<K>>, k: K)
    ensures k in Flatten(b) <==> exists i :: 0 <= i < |b| && k in b[i]
  {
    if b != [] {
      var n := |b| - 1;
      InFlatten(b[..n], k);
      if k in Flatten(b[..n]) {
        var i :| 0 <= i < n && k in b[..n][i];
        assert k in b[i];
      }
      if exists i :: 0 <= i < |b| && k in b[i] {
        var i :| 0 <= i < |b| && k in b[i];
        if i < n {
          assert k in b[..n][i];
        }
      }
    }
  }

  /** In a table whose keys are placed by their hash, a key is stored iff
      it is in the chain of its own bucket (the one chain count scans). */
  lemma PlacedMember<K>(b: seq<seq<K>>, hash: K -> nat, k: K)
    requires |b| > 0 && Placed(b, hash)
    ensures k in KeySet(b) <==> k in b[Slot(k, |b|, hash)]
  {
    InFlatten(b, k);
    if k in Flatten(b) {
      var i :| 0 <= i < |b| && k in b[i];
      var j :| 0 <= j < |b[i]| && b[i][j] == k;
      assert Homed(b, i, hash);
    }
  }

  /** A sequence without repetitions has as many distinct keys as entries. */
  lemma {:induction false} UniqueCard<K>(s: seq<K>)
    requires Unique(s)
    ensures |Members(s)| == |s|
  {
    if s != [] {
      var t := s[1..];
      assert s == [s[0]] + t;
      assert multiset(s) == multiset{s[0]} + multiset(t);
      assert Unique(t) by {
        forall x ensures multiset(t)[x] <= 1 {
          UniqueBound(s, x);
        }
        UniqueFromBound(t);
      }
      UniqueCard(t);
      assert Once(s, 0);
      assert s[0] !in t;
      assert Members(s) == {s[0]} + Members(t);
    }
  }

  /** In a sequence without repetitions, no entry occurs before itself. */
  lemma UniqueNotBefore<K>(s: seq<K>, i: nat)
    requires Unique(s) && i < |s|
    ensures s[i] !in s[..i]
  {
    assert s == s[..i] + [s[i]] + s[i + 1..];
    assert multiset(s) == multiset(s[..i]) + multiset{s[i]} + multiset(s[i + 1..]);
    assert Once(s, i);
  }

  /** Listing one more key adds it to the listed set. */
  lemma MembersSnoc<K>(s: seq<K>, n: nat)
    requires n < |s|
    ensures s[..n + 1] == s[..n] + [s[n]]
    ensures Members(s[..n + 1]) == Members(s[..n]) + {s[n]}
  {
    assert s[..n + 1] == s[..n] + [s[n]];
  }

  /** Keys listed with the same multiplicities are the same set. */
  lemma MembersSame<K>(s: seq<K>, t: seq<K>)
    requires multiset(s) == multiset(t)
    ensures Members(s) == Members(t)
  {
    forall x ensures x in s <==> x in t {
      assert x in s <==> x in multiset(s);
      assert x in t <==> x in multiset(t);
    }
  }

  /** Listing one more k adds k to the set of listed keys. */
  lemma MembersAdd<K>(s: seq<K>, t: seq<K>, k: K)
    requires multiset(s) == multiset(t) + multiset{k}
    ensures Members(s) == Members(t) + {k}
  {
    forall x ensures x in s <==> x in t || x == k {
      assert x in s <==> x in multiset(s);
      assert x in t <==> x in multiset(t);
    }
  }

  /** A finite set contained in another of the same size is equal to it. */
  lemma SubsetSameSize<K>(a: set<K>, b: set<K>)
    requires a <= b && |a| == |b|
    ensures a == b
  {
    assert b == a + (b - a);
    assert |b - a| == 0;
  }

  /** In a duplicate-free sequence every key occurs at most once. */
  lemma UniqueBound<K>(s: seq<K>, x: K)
    requires Unique(s)
    ensures multiset(s)[x] <= 1
  {
    if x in s {
      var i :| 0 <= i < |s| && s[i] == x;
      assert Once(s, i);
    }
  }

  lemma UniqueFromBound<K>(s: seq<K>)
    requires forall x :: multiset(s)[x] <= 1
    ensures Unique(s)
  {
    forall i | 0 <= i < |s| ensures Once(s, i) {
      assert s[i] in multiset(s);
    }
  }

  /** The live-key counter of a valid table is the number of distinct keys. */
  lemma SizeIsCardinality<K>(b: seq<seq<K>>, hash: K -> nat, n: nat)
    requires TableInv(b, hash, n)
    ensures |KeySet(b)| == n
  {
    UniqueCard(Flatten(b));
  }

  // ---------------------------------------------------------------------
  // Updates of one chain

  lemma MultisetCancel<K>(a: multiset<K>, b: multiset<K>, c: multiset<K>)
    requires a + c == b + c
    ensures a == b
  {
    forall x ensures a[x] == b[x] {
      assert (a + c)[x] == (b + c)[x];
    }
  }

  lemma MultisetShift<K>(a: multiset<K>, b: multiset<K>, c: multiset<K>, d: multiset<K>, e: multiset<K>)
    requires a + c == b + d
    ensures (a + e) + c == (b + e) + d
  {
    forall x ensures ((a + e) + c)[x] == ((b + e) + d)[x] {
      assert (a + c)[x] == (b + d)[x];
    }
  }

  /** Replacing chain i by c swaps the keys of the old chain for those of c. */
  lemma {:induction false} FlattenUpdate<K>(b: seq<seq<K>>, i: nat, c: seq<K>)
    requires i < |b|
    ensures multiset(Flatten(b[i := c])) + multiset(b[i]) == multiset(Flatten(b)) + multiset(c)
    ensures |Flatten(b[i := c])| + |b[i]| == |Flatten(b)| + |c|
  {
    var n := |b| - 1;
    var b' := b[i := c];
    if i == n {
      assert b'[..n] == b[..n];
    } else {
      assert b'[..n] == b[..n][i := c];
      FlattenUpdate(b[..n], i, c);
      assert b[..n][i] == b[i];
      assert Flatten(b') == Flatten(b[..n][i := c]) + b[n];
      assert Flatten(b) == Flatten(b[..n]) + b[n];
      assert multiset(Flatten(b')) == multiset(Flatten(b[..n][i := c])) + multiset(b[n]);
      assert multiset(Flatten(b)) == multiset(Flatten(b[..n])) + multiset(b[n]);
      MultisetShift(multiset(Flatten(b[..n][i := c])), multiset(Flatten(b[..n])),
                    multiset(b[i]), multiset(c), multiset(b[n]));
    }
  }

  /** The facts behind PushFront's contract, stated on the updated table. */
  lemma FrontLinkFacts<K>(b: seq<seq<K>>, k: K, hash: K -> nat)
    requires |b| > 0
    ensures var b' := b[Slot(k, |b|, hash) := [k] + b[Slot(k, |b|, hash)]];
      multiset(Flatten(b')) == multiset(Flatten(b)) + multiset{k} &&
      |Flatten(b')| == |Flatten(b)| + 1 &&
      (Placed(b, hash) ==> Placed(b', hash))
  {
    var p := Slot(k, |b|, hash);
    var b' := b[p := [k] + b[p]];
    FlattenUpdate(b, p, [k] + b[p]);
    assert multiset([k] + b[p]) == multiset{k} + multiset(b[p]);
    MultisetCancel(multiset(Flatten(b')), multiset(Flatten(b)) + multiset{k}, multiset(b[p]));
    if Placed(b, hash) {
      forall i | 0 <= i < |b'| ensures Homed(b', i, hash) {
        assert Homed(b, i, hash);
      }
    }
  }

  /** Inserting an absent key keeps the invariant, adds the key to the set
      and raises the counter by one. */
  lemma PushFrontInv<K>(b: seq<seq<K>>, hash: K -> nat, n: nat, k: K)
    requires TableInv(b, hash, n) && k !in KeySet(b)
    ensures TableInv(PushFront(b, k, hash), hash, n + 1)
    ensures KeySet(PushFront(b, k, hash)) == KeySet(b) + {k}
  {
    var b' := PushFront(b, k, hash);
    var m, m' := multiset(Flatten(b)), multiset(Flatten(b'));
    assert m[k] == 0;
    forall x ensures m'[x] <= 1 {
      UniqueBound(Flatten(b), x);
    }
    UniqueFromBound(Flatten(b'));
    MembersAdd(Flatten(b'), Flatten(b), k);
  }

  lemma DistributeSnoc<K>(keys: seq<K>, n: nat, b: seq<seq<K>>, hash: K -> nat)
    requires |b| > 0 && n < |keys|
    ensures Distribute(keys[..n + 1], b, hash) == PushFront(Distribute(keys[..n], b, hash), keys[n], hash)
  {
    assert keys[..n + 1][..n] == keys[..n];
  }

  /** Rehash: re-inserting the keys, in iteration order, into an empty table
      of twice as many buckets keeps the key set and the counter and places
      every key by its hash modulo the new bucket count. */
  lemma RehashInv<K>(b: seq<seq<K>>, hash: K -> nat, n: nat)
    requires TableInv(b, hash, n)
    ensures TableInv(Distribute(Flatten(b), EmptyTable(2 * |b|), hash), hash, n)
    ensures KeySet(Distribute(Flatten(b), EmptyTable(2 * |b|), hash)) == KeySet(b)
  {
    var e: seq<seq<K>> := EmptyTable(2 * |b|);
    var d := Distribute(Flatten(b), e, hash);
    assert multiset(Flatten(e)) == multiset{};
    assert multiset(Flatten(d)) == multiset(Flatten(b));
    assert Placed(e, hash);
    forall x ensures multiset(Flatten(d))[x] <= 1 {
      UniqueBound(Flatten(b), x);
    }
    UniqueFromBound(Flatten(d));
    MembersSame(Flatten(d), Flatten(b));
  }

  /** The erase loop stops at the first node holding k, and unlinking it
      there is what Unlinked describes, whether it is the head, a middle
      node or the tail. */
  lemma {:induction false} UnlinkedAt<K>(c: seq<K>, k: K, p: nat)
    requires p < |c| && c[p] == k && k !in c[..p]
    ensures Unlinked(c, k) == c[..p] + c[p + 1..]
  {
    if p > 0 {
      assert c[0] in c[..p];
      assert c[1..][..p - 1] == c[1..p];
      assert k !in c[1..][..p - 1];
      UnlinkedAt(c[1..], k, p - 1);
      assert c[1..][p - 1 + 1..] == c[p + 1..];
      assert c[..p] == [c[0]] + c[1..p];
    }
  }

  /** Unlinking a node holding k removes one k from the table's keys. */
  lemma UnlinkMultiset<K>(b: seq<seq<K>>, i: nat, k: K)
    requires i < |b| && k in b[i]
    ensures multiset(Flatten(b[i := Unlinked(b[i], k)])) + multiset{k} == multiset(Flatten(b))
    ensures |Flatten(b[i := Unlinked(b[i], k)])| + 1 == |Flatten(b)|
  {
    var c := Unlinked(b[i], k);
    FlattenUpdate(b, i, c);
    MultisetCancel(multiset(Flatten(b[i := c])) + multiset{k}, multiset(Flatten(b)), multiset(c));
    assert |multiset(c)| + 1 == |multiset(b[i])|;
  }

  /** Unlinking keeps every remaining key in its hash bucket. */
  lemma UnlinkPlaced<K>(b: seq<seq<K>>, hash: K -> nat, i: nat, k: K)
    requires i < |b| && Placed(b, hash)
    ensures Placed(b[i := Unlinked(b[i], k)], hash)
  {
    var c := Unlinked(b[i], k);
    var b' := b[i := c];
    forall q | 0 <= q < |b'| ensures Homed(b', q, hash) {
      assert Homed(b, q, hash);
      if q == i {
        forall j | 0 <= j < |c| ensures hash(c[j]) % |b| == i {
          assert c[j] in multiset(c);
          assert c[j] in multiset(b[i]);
          assert c[j] in b[i];
        }
      }
    }
  }

  /** Erasing a stored key keeps the invariant, removes exactly that key
      from the set and lowers the counter by one. */
  lemma UnlinkInv<K>(b: seq<seq<K>>, hash: K -> nat, n: nat, k: K)
    requires TableInv(b, hash, n) && k in KeySet(b)
    ensures n > 0
    ensures var i := Slot(k, |b|, hash);
      TableInv(b[i := Unlinked(b[i], k)], hash, n - 1) &&
      KeySet(b[i := Unlinked(b[i], k)]) == KeySet(b) - {k}
  {
    var i := Slot(k, |b|, hash);
    var b' := b[i := Unlinked(b[i], k)];
    PlacedMember(b, hash, k);
    UnlinkMultiset(b, i, k);
    UnlinkPlaced(b, hash, i, k);
    var m, m' := multiset(Flatten(b)), multiset(Flatten(b'));
    UniqueBound(Flatten(b), k);
    forall x ensures m'[x] <= 1 {
      UniqueBound(Flatten(b), x);
    }
    UniqueFromBound(Flatten(b'));
    MembersAdd(Flatten(b), Flatten(b'), k);
    assert k !in multiset(Flatten(b'));
  }
}
