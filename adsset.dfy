/**
 * ADS_set<Key, N>: an unordered set of keys kept in a hash table with
 * separate chaining. The table has maxSize buckets (N at construction);
 * each bucket holds a singly linked chain of nodes, new nodes being linked
 * in front. sz counts the live keys, and once sz exceeds maxSize * 10 the
 * table is rehashed into twice as many buckets. An Iterator walks each
 * chain in turn and then moves on to the next non-empty bucket.
 *
 * Here the node array becomes an array of chains, each chain the sequence
 * of keys its nodes hold (head first); a node pointer becomes the pair
 * (bucket, position in chain). The hasher is the deterministic function
 * `hash`, fixed when the set is built.
 */
module AdsSet {
  import opened Table

  datatype Option<T> = None | Some(value: T)

  /** A chain node: the bucket whose chain holds it and its distance from
      the head of that chain. */
  datatype NodeRef = NodeRef(bucket: nat, pos: nat)

  class HashSet<Key(==)> {
    const N: nat
    const hash: Key -> nat
    var table: array<seq<Key>>
    var maxSize: nat
    var sz: nat

    /** The table invariant: every key in its hash bucket, no key twice,
        sz the total chain length, at least N buckets. */
    ghost predicate Wf()
      reads this, table
    {
      0 < N <= maxSize && table.Length == maxSize && TableInv(table[..], hash, sz)
    }

    /** Wf, and the growth policy has run: at most 10 keys per bucket. */
    ghost predicate Valid()
      reads this, table
    {
      Wf() && sz <= maxSize * 10
    }

    /** The keys in iteration order. */
    ghost function Elems(): seq<Key>
      reads this, table
    {
      Flatten(table[..])
    }

    /** The abstract value: the set of stored keys. */
    ghost function Keys(): set<Key>
      reads this, table
    {
      KeySet(table[..])
    }

    /** The default constructor: N empty buckets. */
    constructor (n: nat, h: Key -> nat)
      requires n > 0
      ensures Valid() && N == n && hash == h
      ensures maxSize == n && sz == 0 && fresh(table) && table[..] == EmptyTable(n)
      ensures Keys() == {}
    {
      N, hash := n, h;
      table := new seq<Key>[n](_ => []);
      maxSize, sz := n, 0;
      new;
      assert table[..] == EmptyTable(n);
    }

    /** The list and range constructors: the default constructor followed
        by an insert of every listed key. */
    constructor FromList(n: nat, h: Key -> nat, keys: seq<Key>)
      requires n > 0
      ensures Valid() && N == n && hash == h
      ensures Keys() == Members(keys)
    {
      N, hash := n, h;
      table := new seq<Key>[n](_ => []);
      maxSize, sz := n, 0;
      new;
      assert table[..] == EmptyTable(n);
      InsertAll(keys);
    }

    /** The copy constructor: N buckets, filled by an unchecked insert of
        every key of other in other's iteration order. */
    constructor Copy(other: HashSet<Key>)
      requires other.Valid()
      ensures Valid() && N == other.N && hash == other.hash && fresh(table)
      ensures Keys() == other.Keys()
    {
      N, hash := other.N, other.hash;
      table := new seq<Key>[other.N](_ => []);
      maxSize, sz := other.N, 0;
      new;
      assert table[..] == EmptyTable(N);
      var keys := other.InOrder();
      for i := 0 to |keys|
        invariant Valid() && fresh(table)
        invariant Keys() == Members(keys[..i])
      {
        UniqueNotBefore(keys, i);
        MembersSnoc(keys, i);
        InsertUnchecked(keys[i]);
      }
      assert keys[..|keys|] == keys;
    }

    /** A range-for over the set: walk it from begin() with ++ until end(),
        collecting the key at each node. */
    method InOrder() returns (keys: seq<Key>)
      requires table.Length == maxSize
      ensures keys == Elems()
    {
      ghost var elems := Elems();
      keys := [];
      var it := Begin();
      var e := End();
      ghost var n := 0;
      while !it.Equals(e)
        invariant fresh(it) && it.ValidFor(this) && e.to.None? && n == it.Index(this)
        invariant keys == elems[..n]
        decreases |elems| - n
      {
        var key := it.Deref(this);
        assert elems[..n + 1] == elems[..n] + [key];
        keys := keys + [key];
        it.Next(this);
        n := n + 1;
      }
      assert elems[..n] == elems;
    }

    /** hash_idx: the bucket a key belongs in. */
    function HashIdx(k: Key): (r: nat)
      reads this
      requires maxSize > 0
      ensures r < maxSize
    {
      Slot(k, maxSize, hash)
    }

    /** insert_unchecked: link a new node holding k in front of its bucket's
        chain, count it, and rehash if the table now holds more than 10 keys
        per bucket. */
    method InsertUnchecked(k: Key)
      requires Valid() && k !in Keys()
      modifies this, table
      decreases if sz < maxSize * 10 then 0 else 2
      ensures Valid() && Keys() == old(Keys()) + {k} && sz == old(sz) + 1
      ensures table == old(table) || fresh(table)
      ensures old(sz) < old(maxSize) * 10 ==>
        maxSize == old(maxSize) && table == old(table) &&
        table[..] == PushFront(old(table[..]), k, hash)
      ensures old(sz) == old(maxSize) * 10 ==>
        maxSize == 2 * old(maxSize) && fresh(table) &&
        table[..] == Distribute(Flatten(PushFront(old(table[..]), k, hash)), EmptyTable(maxSize), hash)
    {
      var position := HashIdx(k);
      table[position] := [k] + table[position];
      sz := sz + 1;
      assert table[..] == PushFront(old(table[..]), k, hash);
      PushFrontInv(old(table[..]), hash, old(sz), k);
      if maxSize * 10 < sz {
        Rehash();
      }
    }

    /** rehash: collect the keys in iteration order, replace the table by
        one with twice as many empty buckets and insert the keys again. */
    method Rehash()
      requires Wf() && sz <= 2 * (maxSize * 10)
      modifies this, table
      decreases 1
      ensures Valid() && maxSize == 2 * old(maxSize) && sz == old(sz)
      ensures fresh(table) && table[..] == Distribute(old(Elems()), EmptyTable(maxSize), hash)
      ensures Keys() == old(Keys())
    {
      var dataBuff := InOrder();
      assert Unique(dataBuff) && |dataBuff| == sz;
      maxSize := maxSize * 2;
      sz := 0;
      table := new seq<Key>[maxSize](_ => []);
      ghost var empty := EmptyTable(maxSize);
      assert table[..] == empty;
      for i := 0 to |dataBuff|
        invariant Valid() && fresh(table) && maxSize == 2 * old(maxSize) && sz == i
        invariant table[..] == Distribute(dataBuff[..i], empty, hash)
        invariant Keys() == Members(dataBuff[..i])
      {
        UniqueNotBefore(dataBuff, i);
        MembersSnoc(dataBuff, i);
        DistributeSnoc(dataBuff, i, empty, hash);
        InsertUnchecked(dataBuff[i]);
      }
      assert dataBuff[..|dataBuff|] == dataBuff;
    }

    function Size(): (r: nat)
      reads this, table
      requires Valid()
      ensures r == |Keys()|
    {
      SizeIsCardinality(table[..], hash, sz);
      sz
    }

    function Empty(): (r: bool)
      reads this, table
      requires Valid()
      ensures r <==> Keys() == {}
    {
      SizeIsCardinality(table[..], hash, sz);
      if sz == 0 then true else false
    }

    /** count: scan the chain of the key's bucket for an equal key. */
    method Count(key: Key) returns (c: nat)
      requires Wf()
      ensures c == (if key in Keys() then 1 else 0)
      ensures c == 1 <==> key in table[HashIdx(key)]
    {
      var row := HashIdx(key);
      PlacedMember(table[..], hash, key);
      var node := 0;
      while node < |table[row]|
        invariant node <= |table[row]|
        invariant key !in table[row][..node]
      {
        if table[row][node] == key {
          return 1;
        }
        assert table[row][..node + 1] == table[row][..node] + [table[row][node]];
        node := node + 1;
      }
      assert table[row][..node] == table[row];
      return 0;
    }

    /** find: the iterator at the node holding key, or end(). */
    method Find(key: Key) returns (it: Iterator<Key>)
      requires Wf()
      ensures fresh(it) && it.ValidFor(this)
      ensures key !in Keys() ==> it.to.None?
      ensures key in Keys() ==> it.to.Some? && it.to.value.bucket == HashIdx(key)
      ensures key in Keys() ==> Elems()[it.Index(this)] == key
    {
      var row := HashIdx(key);
      PlacedMember(table[..], hash, key);
      var n := 0;
      while n < |table[row]|
        invariant n <= |table[row]|
        invariant key !in table[row][..n]
      {
        if table[row][n] == key {
          it := new Iterator(this, Some(NodeRef(row, n)), row, maxSize);
          FlattenAt(table[..], row, n);
          return;
        }
        assert table[row][..n + 1] == table[row][..n] + [table[row][n]];
        n := n + 1;
      }
      assert table[row][..n] == table[row];
      it := End();
    }

    /** swap: exchange bucket count, table and counter with other. */
    method Swap(other: HashSet<Key>)
      requires Valid() && other.Valid() && other.N == N && other.hash == hash
      modifies this, other
      ensures maxSize == old(other.maxSize) && table == old(other.table) && sz == old(other.sz)
      ensures other.maxSize == old(maxSize) && other.table == old(table) && other.sz == old(sz)
      ensures Valid() && other.Valid()
      ensures Keys() == old(other.Keys()) && other.Keys() == old(Keys())
    {
      var m := maxSize;
      maxSize := other.maxSize;
      other.maxSize := m;
      var t := table;
      table := other.table;
      other.table := t;
      var s := sz;
      sz := other.sz;
      other.sz := s;
    }

    /** insert of one key: a present key leaves everything as it was; an
        absent one is linked in with insert_unchecked. Either way the
        returned iterator is find(key). */
    method Insert(key: Key) returns (it: Iterator<Key>, inserted: bool)
      requires Valid()
      modifies this, table
      ensures Valid() && fresh(it) && it.ValidFor(this)
      ensures inserted <==> key !in old(Keys())
      ensures Keys() == old(Keys()) + {key}
      ensures sz == old(sz) + (if inserted then 1 else 0)
      ensures maxSize >= old(maxSize) && (table == old(table) || fresh(table))
      ensures !inserted ==> maxSize == old(maxSize) && table == old(table) && table[..] == old(table[..])
      ensures inserted && old(sz) < old(maxSize) * 10 ==> table[..] == PushFront(old(table[..]), key, hash)
      ensures inserted && old(sz) == old(maxSize) * 10 ==> maxSize == 2 * old(maxSize) && fresh(table)
      ensures it.to.Some? && Elems()[it.Index(this)] == key
    {
      var c := Count(key);
      if c == 0 {
        InsertUnchecked(key);
        it := Find(key);
        return it, true;
      }
      it := Find(key);
      return it, false;
    }

    /** insert of a list or range: the single-key insert of each key in
        turn, so that keys already present are skipped. */
    method InsertAll(keys: seq<Key>)
      requires Valid()
      modifies this, table
      ensures Valid() && Keys() == old(Keys()) + Members(keys)
      ensures maxSize >= old(maxSize)
    {
      for i := 0 to |keys|
        invariant Valid() && Keys() == old(Keys()) + Members(keys[..i])
        invariant maxSize >= old(maxSize)
        invariant table == old(table) || fresh(table)
      {
        var c := Count(keys[i]);
        if c == 0 {
          InsertUnchecked(keys[i]);
        }
        assert keys[..i + 1] == keys[..i] + [keys[i]];
      }
      assert keys[..|keys|] == keys;
    }

    /** clear: a fresh table of N empty buckets. */
    method Clear()
      requires Valid()
      modifies this
      ensures Valid() && fresh(table) && table[..] == EmptyTable(N)
      ensures sz == 0 && maxSize == N && Keys() == {}
    {
      sz := 0;
      maxSize := N;
      table := new seq<Key>[maxSize](_ => []);
      assert table[..] == EmptyTable(N);
    }

    /** erase: if the key is stored, unlink the node holding it from the
        chain of its bucket and count one key less. */
    method Erase(key: Key) returns (r: nat)
      requires Valid()
      modifies this`sz, table
      ensures Valid() && maxSize == old(maxSize)
      ensures r == (if key in old(Keys()) then 1 else 0)
      ensures sz == old(sz) - r
      ensures Keys() == old(Keys()) - {key}
      ensures table[..] == old(table[..])[HashIdx(key) := Unlinked(old(table[HashIdx(key)]), key)]
      ensures key !in old(Keys()) ==> table[..] == old(table[..])
    {
      var c := Count(key);
      if c == 1 {
        var idx := HashIdx(key);
        UnlinkInv(table[..], hash, sz, key);
        UnlinkNode(idx, key);
        return 1;
      }
      assert Unlinked(table[HashIdx(key)], key) == table[HashIdx(key)];
      assert table[..] == table[..][HashIdx(key) := table[HashIdx(key)]];
      return 0;
    }

    /** The pointer surgery of erase: walk the chain of bucket idx with a
        current and a previous node and unlink the first node holding key,
        from the head or from its predecessor. */
    method UnlinkNode(idx: nat, key: Key)
      requires idx < table.Length && key in table[idx] && sz > 0
      modifies this`sz, table
      ensures table[..] == old(table[..])[idx := Unlinked(old(table[idx]), key)]
      ensures sz == old(sz) - 1
    {
      var current := 0;
      var previous: Option<nat> := None;
      while current < |table[idx]|
        invariant current <= |table[idx]|
        invariant key !in table[idx][..current]
        invariant current > 0 ==> previous == Some(current - 1)
        invariant table[..] == old(table[..]) && sz == old(sz)
      {
        if table[idx][current] == key {
          UnlinkedAt(table[idx], key, current);
          if current == 0 {
            table[idx] := table[idx][1..];
            sz := sz - 1;
            return;
          }
          if previous.Some? {
            var p := previous.value;
            table[idx] := table[idx][..p + 1] + table[idx][current + 1..];
            sz := sz - 1;
            return;
          }
        }
        assert table[idx][..current + 1] == table[idx][..current] + [table[idx][current]];
        previous := Some(current);
        current := current + 1;
      }
      assert false;
    }

    /** begin: the head of the lowest-indexed non-empty bucket, or end(). */
    method Begin() returns (it: Iterator<Key>)
      requires table.Length == maxSize
      ensures fresh(it) && it.ValidFor(this) && it.Index(this) == 0
      ensures it.to.None? <==> Elems() == []
      ensures it.to.Some? ==> it.to.value.pos == 0
      ensures it.to.Some? ==> forall q :: 0 <= q < it.to.value.bucket ==> table[q] == []
    {
      for i := 0 to maxSize
        invariant forall q :: 0 <= q < i ==> table[q] == []
      {
        if table[i] != [] {
          it := new Iterator(this, Some(NodeRef(i, 0)), i, maxSize);
          FlattenAllEmpty(table[..][..i]);
          FlattenAt(table[..], i, 0);
          return;
        }
      }
      FlattenAllEmpty(table[..]);
      it := End();
    }

    /** end: the iterator with no current node. */
    method End() returns (it: Iterator<Key>)
      ensures fresh(it) && it.ptr == null && it.to.None? && it.itPos == 0 && it.tblSz == 0
    {
      it := new Iterator(null, None, 0, 0);
    }

    /** Copy assignment as written: clear first, then insert every key of
        other. When other is this set itself, the clear has already
        emptied it, so nothing is inserted and the set ends up empty. */
    method AssignAsWritten(other: HashSet<Key>)
      requires Valid() && other.Valid()
      modifies this
      ensures Valid()
      ensures other != this ==> Keys() == old(other.Keys())
      ensures other == this ==> Keys() == {}
    {
      Clear();
      var keys := other.InOrder();
      assert other == this ==> keys == [];
      assert other != this ==> keys == old(other.Elems());
      for i := 0 to |keys|
        invariant Valid() && fresh(table)
        invariant Keys() == Members(keys[..i])
      {
        MembersSnoc(keys, i);
        var found, inserted := Insert(keys[i]);
      }
      assert keys[..|keys|] == keys;
    }

    /** Copy assignment with the self-assignment case kept apart: assigning
        a set to itself leaves it as it is. */
    method Assign(other: HashSet<Key>)
      requires Valid() && other.Valid()
      modifies this
      ensures Valid()
      ensures Keys() == old(other.Keys())
    {
      if other != this {
        AssignAsWritten(other);
      }
    }

    /** Assignment from a key list: clear, then insert every listed key. */
    method AssignList(keys: seq<Key>)
      requires Valid()
      modifies this
      ensures Valid() && Keys() == Members(keys)
    {
      Clear();
      InsertAll(keys);
    }
  }

  /** A forward iterator: the set it walks (null for end()), its current
      node (None at the end), the bucket of that node and the bucket count
      of the table when the iterator was made. */
  class Iterator<Key(==)> {
    var ptr: HashSet?<Key>
    var to: Option<NodeRef>
    var itPos: nat
    var tblSz: nat

    constructor (ads: HashSet?<Key>, tbl: Option<NodeRef>, idx: nat, size: nat)
      ensures ptr == ads && to == tbl && itPos == idx && tblSz == size
    {
      ptr, to, itPos, tblSz := ads, tbl, idx, size;
    }

    /** The iterator is end() or reached the end, or it stands on a node
        of s's table. */
    ghost predicate ValidFor(s: HashSet<Key>)
      reads this, s, s.table
    {
      (to.None? ==> itPos == tblSz) &&
      (to.Some? ==> ptr == s && tblSz == s.maxSize == s.table.Length && itPos == to.value.bucket &&
                    itPos < tblSz && to.value.pos < |s.table[itPos]|)
    }

    /** The position of the current node in s's iteration order; the end
        stands one past the last key. */
    ghost function Index(s: HashSet<Key>): (r: nat)
      reads this, s, s.table
      requires ValidFor(s)
      ensures r <= |s.Elems()|
      ensures to.Some? <==> r < |s.Elems()|
    {
      if to.None? then |s.Elems()|
      else
        FlattenAt(s.table[..], to.value.bucket, to.value.pos);
        Offset(s.table[..], to.value.bucket) + to.value.pos
    }

    /** operator*: the key held by the current node. */
    method Deref(ghost s: HashSet<Key>) returns (k: Key)
      requires ValidFor(s) && to.Some?
      ensures k == s.Elems()[Index(s)]
      ensures k == s.table[to.value.bucket][to.value.pos]
    {
      k := ptr.table[to.value.bucket][to.value.pos];
      FlattenAt(s.table[..], to.value.bucket, to.value.pos);
    }

    /** operator==: same current node. A node is identified by its set,
        bucket and position, and every end iterator has none. */
    predicate Equals(other: Iterator<Key>)
      reads this, other
      ensures to.None? && other.to.None? ==> Equals(other)
      ensures Equals(other) && to.Some? ==> ptr == other.ptr && to == other.to
    {
      to == other.to && (to.None? || ptr == other.ptr)
    }

    /** operator++: follow the chain; at its tail, move to the head of the
        next non-empty bucket, or to the end once the buckets run out. */
    method Next(ghost s: HashSet<Key>)
      requires ValidFor(s)
      modifies this
      ensures ValidFor(s) && ptr == old(ptr) && tblSz == old(tblSz)
      ensures old(to).None? ==> to == old(to) && itPos == old(itPos)
      ensures old(to).Some? ==> Index(s) == old(Index(s)) + 1
    {
      while itPos < tblSz
        invariant ptr == old(ptr) && tblSz == old(tblSz) && to == old(to)
        invariant to.None? ==> itPos == old(itPos)
        invariant to.Some? ==> to.value.bucket <= itPos < tblSz
        invariant to.Some? ==> forall q :: to.value.bucket < q <= itPos ==> s.table[q] == []
        invariant to.Some? && to.value.bucket < itPos ==> to.value.pos + 1 == |s.table[to.value.bucket]|
      {
        var node := to.value;
        if node.pos + 1 < |ptr.table[node.bucket]| {
          to := Some(NodeRef(node.bucket, node.pos + 1));
          return;
        } else {
          itPos := itPos + 1;
        }
        if itPos == tblSz {
          OffsetSkip(s.table[..], node.bucket, itPos);
          OffsetEnd(s.table[..]);
          to := None;
          return;
        }
        if |ptr.table[itPos]| > 0 {
          OffsetSkip(s.table[..], node.bucket, itPos);
          to := Some(NodeRef(itPos, 0));
          return;
        }
      }
    }
  }

  /** Iterator equality decides whether two iterators over the same set
      stand at the same position of its iteration order. */
  lemma EqualsIffSameIndex<Key>(a: Iterator<Key>, b: Iterator<Key>, s: HashSet<Key>)
    requires a.ValidFor(s) && b.ValidFor(s)
    ensures a.Equals(b) <==> a.Index(s) == b.Index(s)
  {
    if a.to.Some? && b.to.Some? && a.Index(s) == b.Index(s) {
      OffsetInjective(s.table[..], a.to.value.bucket, a.to.value.pos, b.to.value.bucket, b.to.value.pos);
    }
  }

  /** A walk from begin() to end() lists the keys of a well-formed set in
      iteration order (InOrder); that order holds every stored key exactly
      once, sz keys in total. */
  lemma TraversalListsEachKeyOnce<Key>(s: HashSet<Key>)
    requires s.Wf()
    ensures Unique(s.Elems()) && Members(s.Elems()) == s.Keys()
    ensures |s.Elems()| == s.sz == |s.Keys()|
  {
    SizeIsCardinality(s.table[..], s.hash, s.sz);
  }

  /** operator==: equal sizes, and every key of lhs is counted in rhs. */
  method Equal<Key(==)>(lhs: HashSet<Key>, rhs: HashSet<Key>) returns (r: bool)
    requires lhs.Valid() && rhs.Valid()
    ensures r <==> lhs.Keys() == rhs.Keys()
  {
    SizeIsCardinality(lhs.table[..], lhs.hash, lhs.sz);
    SizeIsCardinality(rhs.table[..], rhs.hash, rhs.sz);
    if lhs.sz != rhs.sz {
      return false;
    }
    ghost var elems, keys := lhs.Elems(), rhs.Keys();
    var it := lhs.Begin();
    var e := lhs.End();
    ghost var n := 0;
    while !it.Equals(e)
      invariant fresh(it) && it.ValidFor(lhs) && e.to.None? && n == it.Index(lhs)
      invariant forall i :: 0 <= i < n ==> elems[i] in keys
      decreases |elems| - n
    {
      var key := it.Deref(lhs);
      assert key == elems[n];
      var c := rhs.Count(key);
      if c == 0 {
        return false;
      }
      assert key in keys;
      it.Next(lhs);
      forall i | 0 <= i < n + 1 ensures elems[i] in keys {
      }
      n := n + 1;
    }
    assert forall x | x in elems :: x in keys;
    SubsetSameSize(lhs.Keys(), rhs.Keys());
    return true;
  }

  /** operator!=: the negation of operator==. */
  method NotEqual<Key(==)>(lhs: HashSet<Key>, rhs: HashSet<Key>) returns (r: bool)
    requires lhs.Valid() && rhs.Valid()
    ensures r <==> lhs.Keys() != rhs.Keys()
  {
    var eq := Equal(lhs, rhs);
    return !eq;
  }

  /** The free swap function: lhs.swap(rhs). */
  method SwapSets<Key(==)>(lhs: HashSet<Key>, rhs: HashSet<Key>)
    requires lhs.Valid() && rhs.Valid() && lhs.N == rhs.N && lhs.hash == rhs.hash
    modifies lhs, rhs
    ensures lhs.Valid() && rhs.Valid()
    ensures lhs.Keys() == old(rhs.Keys()) && rhs.Keys() == old(lhs.Keys())
  {
    lhs.Swap(rhs);
  }

  /** Self-assignment through the copy assignment as written: a set holding
      one key reports size 1 before `s = s` and size 0 after it. */
  method SelfAssignmentEmpties() returns (before: nat, after: nat)
    ensures before == 1 && after == 0
  {
    var s := new HashSet<int>(7, k => if k < 0 then -k else k);
    var it, inserted := s.Insert(42);
    before := s.Size();
    s.AssignAsWritten(s);
    after := s.Size();
  }

  /** The same scenario with the corrected assignment keeps the key. */
  method SelfAssignmentKeeps() returns (before: nat, after: nat)
    ensures before == 1 && after == 1
  {
    var s := new HashSet<int>(7, k => if k < 0 then -k else k);
    var it, inserted := s.Insert(42);
    before := s.Size();
    s.Assign(s);
    after := s.Size();
  }
}
