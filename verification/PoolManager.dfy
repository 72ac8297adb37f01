/** Taskete's pool allocator: free lists threaded through fixed blocks, a growing list of pools, and
    handles in place of pointers. Operations are sequential here. */
module PoolManager {
  import opened Options
  import opened PoolHelper
  import opened Words

  /** A block holds raw bytes, a node of the free list, or an object. Addresses are block indices. */
  datatype Block<T> = Raw | Node(next: Option<nat>) | Object(value: T)

  /** The free list as a sequence, from its head. */
  predicate Ascending(s: seq<nat>) {
    forall i, j :: 0 <= i < j < |s| ==> s[i] < s[j]
  }

  /** All nodes after the head come in ascending order, and the head is not among them. */
  predicate Listed(s: seq<nat>) {
    s != [] ==> Ascending(s[1..]) && s[0] !in s[1..]
  }

  function InsertSorted(s: seq<nat>, x: nat): seq<nat> {
    if s == [] || s[0] >= x then [x] + s else [s[0]] + InsertSorted(s[1..], x)
  }

  /** Where a freed block goes: never before the head. */
  function Insert(s: seq<nat>, x: nat): seq<nat> {
    if s == [] then [x] else [s[0]] + InsertSorted(s[1..], x)
  }

  lemma AscendingFrom(x: nat, s: seq<nat>)
    requires Ascending(s) && forall y :: y in s ==> x < y
    ensures Ascending([x] + s)
  {
    var t := [x] + s;
    forall i, j | 0 <= i < j < |t|
      ensures t[i] < t[j]
    {
      assert t[j] == s[j - 1] && s[j - 1] in s;
    }
  }

  lemma {:induction false} InsertSortedKeeps(s: seq<nat>, x: nat)
    requires Ascending(s) && x !in s
    ensures Ascending(InsertSorted(s, x))
    ensures forall y :: y in InsertSorted(s, x) <==> y in s || y == x
  {
    if s != [] && s[0] < x {
      assert forall y :: y in s <==> y == s[0] || y in s[1..];
      assert Ascending(s[1..]);
      InsertSortedKeeps(s[1..], x);
      var rest := InsertSorted(s[1..], x);
      AscendingFrom(s[0], rest);
    } else if s != [] {
      assert forall y :: y in s ==> y == s[0] || s[0] < y;
      AscendingFrom(x, s);
    }
  }

  lemma InsertKeeps(s: seq<nat>, x: nat)
    requires Listed(s) && x !in s
    ensures Listed(Insert(s, x)) && Insert(s, x) != [] && Insert(s, x)[0] == if s == [] then x else s[0]
    ensures forall y :: y in Insert(s, x) <==> y in s || y == x
  {
    if s != [] {
      InsertSortedKeeps(s[1..], x);
      assert Insert(s, x)[1..] == InsertSorted(s[1..], x);
      assert forall y :: y in s <==> y == s[0] || y in s[1..];
    } else {
      assert [x][1..] == [];
    }
  }

  /** The list stays in full address order exactly when nothing goes below its head. */
  lemma FullOrder(s: seq<nat>, x: nat)
    requires Ascending(s) && x !in s
    ensures Ascending(Insert(s, x)) <==> s == [] || s[0] < x
  {
    if s != [] {
      assert s == [s[0]] + s[1..];
      InsertSortedKeeps(s[1..], x);
      var r := InsertSorted(s[1..], x);
      var t := Insert(s, x);
      assert t == [s[0]] + r;
      if s[0] < x {
        AscendingFrom(s[0], r);
      } else {
        assert x in r;
        var i :| 0 <= i < |r| && r[i] == x;
        assert t[1 + i] == x && t[0] == s[0];
      }
    }
  }

  /** Walking the list as the code does finds the place. */
  lemma {:induction false} InsertAt(s: seq<nat>, i: nat, x: nat)
    requires i <= |s| && (forall j :: 0 <= j < i ==> s[j] < x) && (i < |s| ==> s[i] >= x)
    ensures InsertSorted(s, x) == s[..i] + [x] + s[i..]
  {
    if i == 0 {
      assert s[..0] == [] && s[0..] == s;
    } else {
      var t := s[1..];
      InsertAt(t, i - 1, x);
      assert t[..i - 1] == s[1..i] && t[i - 1..] == s[i..];
      assert InsertSorted(s, x) == [s[0]] + InsertSorted(t, x);
      hide InsertSorted;
      assert s[..i] == [s[0]] + s[1..i];
    }
  }

  // The list in memory

  function First(free: seq<nat>): Option<nat> {
    if free == [] then None else Some(free[0])
  }

  predicate Chained<T>(mem: seq<Block<T>>, free: seq<nat>) {
    free == [] ||
    (free[0] < |mem| && mem[free[0]] == Node(First(free[1..])) && Chained(mem, free[1..]))
  }

  predicate Distinct(s: seq<nat>) {
    s == [] || (s[0] !in s[1..] && Distinct(s[1..]))
  }

  lemma {:induction false} AscendingDistinct(s: seq<nat>)
    requires Ascending(s)
    ensures Distinct(s)
  {
    if s == [] {
    } else {
      AscendingDistinct(s[1..]);
    }
  }

  lemma {:induction false} ChainedFrame<T>(mem: seq<Block<T>>, free: seq<nat>, o: nat, block: Block<T>)
    requires Chained(mem, free) && o < |mem| && o !in free
    ensures Chained(mem[o := block], free)
  {
    if free == [] {
    } else {
      assert free[0] in free;
      ChainedFrame(mem, free[1..], o, block);
    }
  }

  /** Linking a block in behind node `i`. */
  lemma {:induction false} ChainedInsert<T>(mem: seq<Block<T>>, free: seq<nat>, i: nat, o: nat)
    requires Chained(mem, free) && Distinct(free) && i < |free| && o < |mem| && o !in free && free[i] < |mem|
    ensures Chained(mem[o := mem[free[i]]][free[i] := Node(Some(o))], free[..i + 1] + [o] + free[i + 1..])
  {
    var mem' := mem[o := mem[free[i]]][free[i] := Node(Some(o))];
    var rest := free[1..];
    var more := free[..i + 1] + [o] + free[i + 1..];
    assert more[0] == free[0] && free[0] != o;
    if i == 0 {
      ChainedFrame(mem, rest, o, mem[free[0]]);
      ChainedFrame(mem[o := mem[free[0]]], rest, free[0], Node(Some(o)));
      assert more[1..] == [o] + rest && ([o] + rest)[1..] == rest;
    } else {
      ChainedInsert(mem, rest, i - 1, o);
      assert rest[i - 1] == free[i] && free[0] != free[i];
      assert more[1..] == rest[..i] + [o] + rest[i..];
    }
  }

  lemma {:induction false} ChainFrom<T>(mem: seq<Block<T>>, free: seq<nat>)
    requires forall i :: 0 <= i < |free| ==> free[i] < |mem| && mem[free[i]] == Node(First(free[i + 1..]))
    ensures Chained(mem, free)
  {
    if free == [] {
    } else {
      assert free[0 + 1..] == free[1..];
      forall i | 0 <= i < |free[1..]|
        ensures mem[free[1..][i]] == Node(First(free[1..][i + 1..]))
      {
        assert free[i + 1 + 1..] == free[1..][i + 1..];
      }
      ChainFrom(mem, free[1..]);
    }
  }

  /** A block goes behind node `i`: all nodes up to it, but the head, lie below the block, the next
      one does not. */
  ghost predicate IsPlace(free: seq<nat>, o: nat, i: nat) {
    i < |free| && (forall j :: 1 <= j <= i ==> free[j] < o) && (i + 1 < |free| ==> free[i + 1] >= o)
  }

  lemma InsertPlace(free: seq<nat>, i: nat, o: nat)
    requires IsPlace(free, o, i)
    ensures Insert(free, o) == free[..i + 1] + [o] + free[i + 1..]
  {
    hide InsertSorted;
    InsertAt(free[1..], i, o);
    Splice(free, i, o);
  }

  lemma Splice(free: seq<nat>, i: nat, o: nat)
    requires i < |free|
    ensures [free[0]] + (free[1..][..i] + [o] + free[1..][i..]) == free[..i + 1] + [o] + free[i + 1..]
  {
  }

  lemma ListedTail(free: seq<nat>)
    requires Listed(free) && free != []
    ensures Listed(free[1..]) && Distinct(free)
  {
    AscendingDistinct(free[1..]);
    if |free| > 1 {
      assert Ascending(free[1..][1..]);
    }
  }

  /** A pool's memory: the listed blocks are free and chained, all others hold objects. */
  ghost predicate Laid<T>(mem: seq<Block<T>>, free: seq<nat>) {
    && Listed(free) && Chained(mem, free)
    && (forall o :: o in free ==> o < |mem|)
    && (forall o :: 0 <= o < |mem| && o !in free ==> mem[o].Object?)
  }

  lemma LaidTake<T>(mem: seq<Block<T>>, free: seq<nat>, value: T)
    requires Laid(mem, free) && free != []
    ensures Laid(mem[free[0] := Object(value)], free[1..])
    ensures mem[free[0]] == Node(First(free[1..]))
    ensures free == [free[0]] + free[1..] && free[0] !in free[1..]
  {
    ListedTail(free);
    ChainedFrame(mem, free[1..], free[0], Object(value));
    hide Chained, Listed, Distinct;
    assert forall y :: y in free <==> y == free[0] || y in free[1..];
  }

  lemma LaidInsert<T>(mem: seq<Block<T>>, free: seq<nat>, i: nat, o: nat)
    requires Laid(mem, free) && o < |mem| && o !in free && IsPlace(free, o, i)
    ensures Laid(mem[o := mem[free[i]]][free[i] := Node(Some(o))], Insert(free, o))
    ensures Insert(free, o) == free[..i + 1] + [o] + free[i + 1..]
  {
    ListedTail(free);
    InsertKeeps(free, o);
    InsertPlace(free, i, o);
    assert free[i] in free;
    ChainedInsert(mem, free, i, o);
    var mem', more := mem[o := mem[free[i]]][free[i] := Node(Some(o))], Insert(free, o);
    assert Chained(mem', more) && Listed(more);
    hide Chained, Listed, Distinct, Insert;
    forall p | 0 <= p < |mem'| && p !in more
      ensures mem'[p].Object?
    {
      assert p !in free && p != o && p != free[i];
    }
  }

  lemma LaidFirst<T>(mem: seq<Block<T>>, o: nat)
    requires Laid(mem, []) && o < |mem|
    ensures Laid(mem[o := Node(None)], [o])
  {
    InsertKeeps([], o);
    assert [o][1..] == [];
    var mem' := mem[o := Node(None)];
    assert Chained(mem', [o]);
    forall p | 0 <= p < |mem'| && p !in [o]
      ensures mem'[p].Object?
    {
      assert p != o && p !in [];
    }
  }

  lemma {:induction false} ChainedAt<T>(mem: seq<Block<T>>, free: seq<nat>, i: nat)
    requires Chained(mem, free) && i < |free|
    ensures free[i] < |mem| && mem[free[i]] == Node(First(free[i + 1..]))
  {
    if i == 0 {
    } else {
      ChainedAt(mem, free[1..], i - 1);
      assert free[1..][i..] == free[i + 1..];
    }
  }

  lemma LaidWhole<T>(mem: seq<Block<T>>, free: seq<nat>)
    requires free == seq(|mem|, (i: nat) => i)
    requires forall i :: 0 <= i < |mem| ==> mem[i] == Node(if i + 1 < |mem| then Some(i + 1) else None)
    ensures Laid(mem, free)
  {
    ChainFrom(mem, free);
    forall o | 0 <= o < |mem|
      ensures o in free
    {
      assert free[o] == o;
    }
  }

  /** Free and live blocks partition the pool, and the list passes each free block once. */
  lemma LaidPartition<T>(mem: seq<Block<T>>, free: seq<nat>)
    requires Laid(mem, free)
    ensures Distinct(free) && (forall i, j :: 1 <= i < j < |free| ==> free[i] < free[j])
    ensures forall o :: 0 <= o < |mem| ==>
              (o in free <==> mem[o].Node?) && (o !in free <==> mem[o].Object?)
  {
    if free != [] {
      ListedTail(free);
      var rest := free[1..];
      forall i, j | 1 <= i < j < |free|
        ensures free[i] < free[j]
      {
        assert free[i] == rest[i - 1] && free[j] == rest[j - 1];
      }
    }
    forall o | o in free
      ensures mem[o].Node?
    {
      var i :| 0 <= i < |free| && free[i] == o;
      ChainedAt(mem, free, i);
    }
  }

  /** Block `o` is freed, all other objects stay where they are. */
  ghost predicate Freed<T>(was: seq<Block<T>>, now: seq<Block<T>>, o: nat) {
    && |now| == |was| && o < |was| && now[o].Node?
    && forall r :: 0 <= r < |was| && r != o ==> if was[r].Object? then now[r] == was[r] else !now[r].Object?
  }

  /** Before an object is freed: its block is not in the list, which its node does not touch. */
  lemma LaidBefore<T>(mem: seq<Block<T>>, free: seq<nat>, o: nat)
    requires Laid(mem, free) && o < |mem| && mem[o].Object?
    ensures o !in free && Chained(mem[o := Node(None)], free)
    ensures forall i :: 0 <= i < |free| ==> free[i] != o && free[i] < |mem|
    ensures free == [] ==> Laid(mem[o := Node(None)], [o]) && Insert(free, o) == [o]
                           && Freed(mem, mem[o := Node(None)], o)
  {
    if o in free {
      var i :| 0 <= i < |free| && free[i] == o;
      ChainedAt(mem, free, i);
    }
    ChainedFrame(mem, free, o, Node(None));
    if free == [] {
      LaidFirst(mem, o);
    }
    assert forall i :: 0 <= i < |free| ==> free[i] in free;
  }

  lemma FreedBehind<T>(was: seq<Block<T>>, node: nat, o: nat)
    requires o < |was| && node < |was| && node != o && was[node].Node?
    ensures Freed(was, was[o := was[node]][node := Node(Some(o))], o)
  {
  }

  class Pool<T> {
    const mem: array<Block<T>>
    var head: Option<nat>
    ghost var free: seq<nat>

    ghost predicate Valid()
      reads this, mem
    {
      head == First(free) && Laid(mem[..], free)
    }

    /** Allocating the memory of a pool and populating its list. */
    constructor (capacity: nat)
      requires capacity > 0
      ensures Valid() && fresh(mem) && mem.Length == capacity
      ensures free == seq(capacity, (i: nat) => i) && forall o :: 0 <= o < capacity ==> mem[o].Node?
    {
      mem := new Block<T>[capacity](_ => Raw);
      head := None;
      free := [];
      new;
      PopulateList();
    }

    method PopulateList()
      requires mem.Length > 0
      modifies this, mem
      ensures Valid() && free == seq(mem.Length, (i: nat) => i)
      ensures forall o :: 0 <= o < mem.Length ==> mem[o].Node?
    {
      mem[0] := Node(None);
      head := Some(0);
      var current := 0;
      for i := 1 to mem.Length
        invariant current == i - 1 && head == Some(0)
        invariant forall j :: 0 <= j < i ==> mem[j] == Node(if j + 1 < i then Some(j + 1) else None)
      {
        mem[i] := Node(None);
        mem[current] := Node(Some(i));
        current := i;
      }
      free := seq(mem.Length, (i: nat) => i);
      LaidWhole(mem[..], free);
    }

    /** Taking the head of the list for an object. */
    method TakeHead(value: T) returns (o: nat)
      requires Valid() && head.Some?
      modifies this, mem
      ensures Valid() && o < mem.Length
      ensures old(free) == [o] + free && old(mem[..])[o].Node?
      ensures mem[..] == old(mem[..])[o := Object(value)]
    {
      LaidTake(mem[..], free, value);
      assert free[0] in free;
      hide Laid;
      o := head.value;
      head := mem[o].next;
      free := free[1..];
      mem[o] := Object(value);
      assert mem[..] == old(mem[..])[o := Object(value)];
    }

    /** The node behind which a freed block goes. */
    method FindPlace(o: nat) returns (node: nat)
      requires Chained(mem[..], free) && head == First(free) && free != []
      ensures exists i: nat :: IsPlace(free, o, i) && node == free[i] < mem.Length &&
                               mem[node] == Node(First(free[i + 1..]))
    {
      node := head.value;
      ghost var i := 0;
      ChainedAt(mem[..], free, i);
      while mem[node].next.Some? && mem[node].next.value < o
        invariant 0 <= i < |free| && node == free[i] < mem.Length
        invariant mem[node] == Node(First(free[i + 1..]))
        invariant forall j :: 1 <= j <= i ==> free[j] < o
        decreases |free| - i
      {
        hide Chained;
        node := mem[node].next.value;
        i := i + 1;
        ChainedAt(mem[..], free, i);
      }
      assert IsPlace(free, o, i);
    }

    /** taskete's `mark_as_free`. */
    method MarkAsFree(o: nat)
      requires Valid() && o < mem.Length && mem[o].Object?
      modifies this, mem
      ensures Valid() && free == Insert(old(free), o)
      ensures Freed(old(mem[..]), mem[..], o)
    {
      hide Laid, Chained, Insert, Freed;
      ghost var was := mem[..];
      LaidBefore(was, free, o);
      mem[o] := Node(None);
      assert mem[..] == was[o := Node(None)];
      if head.None? {
        head := Some(o);
        free := [o];
        return;
      }
      var node := FindPlace(o);
      ghost var i: nat :| IsPlace(free, o, i) && node == free[i] && mem[node] == Node(First(free[i + 1..]));
      LaidInsert(was, free, i, o);
      FreedBehind(was, node, o);
      mem[o] := Node(mem[node].next);
      mem[node] := Node(Some(o));
      assert mem[..] == was[o := was[node]][node := Node(Some(o))];
      free := Insert(free, o);
    }
  }

  // All pools together

  /** Every handle that a pool and a block can have decodes to them. */
  ghost predicate Decodes(helper: Helper, pools: nat, capacity: nat) {
    && pools <= B
    && forall p: u32, o: nat :: p < pools && o < capacity ==>
         var handle := helper.MakeHandle(p, o);
         helper.ExtractPool(handle) == p && helper.ExtractOffset(handle) == o
  }

  lemma AddressableDecodes(helper: Helper, k: nat, b: nat, pools: nat)
    requires Packs(helper, k, b) && pools <= Addressable(k, b) && pools <= B
    ensures Decodes(helper, pools, Pow(2, k))
  {
    hide Packs, Addressable, Pow;
    forall p: u32, o: nat | p < pools && o < Pow(2, k)
      ensures var handle := helper.MakeHandle(p, o);
              helper.ExtractPool(handle) == p && helper.ExtractOffset(handle) == o
    {
      HandleRoundTrip(helper, k, b, p, o);
    }
  }

  /** Options under which every handle can be decoded: the capacity is a power of two, and the bits
      that are left suffice for the pools. */
  predicate Decodable(capacity: u32, maxPools: u32) {
    maxPools == 0 ||
    (capacity > 0 && PowerOfTwo(capacity) && maxPools <= Addressable(BitLength(capacity) - 1, BitLength(maxPools)))
  }

  /** The handles can be decoded exactly under such options. */
  lemma DecodesExactly(helper: Helper, capacity: u32, maxPools: u32)
    requires Built(helper, capacity, maxPools)
    requires BitLength((capacity - 1) % B) < 32 && BitLength(maxPools) < 32
    ensures Decodes(helper, maxPools, capacity) <==> Decodable(capacity, maxPools)
  {
    hide Addressable, Pow, Packs, Built, Helper.MakeHandle;
    CapacityPositive(capacity);
    if maxPools > 0 {
      CapacityExact(helper, capacity, maxPools);
      if Decodes(helper, maxPools, capacity) {
        assert OffsetsDecode(helper, capacity);
      }
      if PowerOfTwo(capacity) {
        var k, b := BitLength(capacity) - 1, BitLength(maxPools);
        BitLengthMask(k);
        ConstructedPacks(helper, k, maxPools);
        if maxPools <= Addressable(k, b) {
          AddressableDecodes(helper, k, b, maxPools);
        } else {
          HandleRoundTrip(helper, k, b, maxPools - 1, 0);
        }
      }
    }
  }

  type Memory<T> = seq<seq<Block<T>>>

  ghost predicate Shaped<T>(mems: Memory<T>, capacity: nat) {
    |mems| < B && forall p :: 0 <= p < |mems| ==> |mems[p]| == capacity
  }

  ghost predicate StoredAt<T>(helper: Helper, mems: Memory<T>, objects: map<u32, T>, p: u32, o: nat)
    requires p < |mems| && o < |mems[p]|
  {
    var handle := helper.MakeHandle(p, o);
    if mems[p][o].Object? then handle in objects && objects[handle] == mems[p][o].value else handle !in objects
  }

  /** The live objects are those in the pools, each under its handle. */
  ghost predicate Stored<T>(helper: Helper, mems: Memory<T>, objects: map<u32, T>) {
    && |mems| < B
    && (forall p: u32, o: nat :: p < |mems| && o < |mems[p]| ==> StoredAt(helper, mems, objects, p, o))
    && (forall handle :: handle in objects ==>
          var p, o := helper.ExtractPool(handle), helper.ExtractOffset(handle);
          p < |mems| && o < |mems[p]| && helper.MakeHandle(p, o) == handle)
  }

  lemma StoredConstruct<T>(
    helper: Helper, mems: Memory<T>, objects: map<u32, T>, p: u32, o: nat, value: T, limit: nat, capacity: nat)
    requires Shaped(mems, capacity) && |mems| <= limit
    requires Decodes(helper, limit, capacity) && Stored(helper, mems, objects)
    requires p < |mems| && o < capacity && !mems[p][o].Object?
    ensures var handle := helper.MakeHandle(p, o);
            && handle !in objects && helper.ExtractPool(handle) == p && helper.ExtractOffset(handle) == o
            && Stored(helper, mems[p := mems[p][o := Object(value)]], objects[handle := value])
  {
    var mems': Memory<T> := mems[p := mems[p][o := Object(value)]];
    var handle := helper.MakeHandle(p, o);
    var objects' := objects[handle := value];
    assert StoredAt(helper, mems, objects, p, o);
    forall q: u32, r: nat | q < |mems'| && r < |mems'[q]|
      ensures StoredAt(helper, mems', objects', q, r)
    {
      var h := helper.MakeHandle(q, r);
      assert q < |mems| ==> StoredAt(helper, mems, objects, q, r);
      assert helper.ExtractPool(h) == q && helper.ExtractOffset(h) == r;
      if q != p || r != o {
        assert mems'[q][r] == mems[q][r] && h != handle;
      }
    }
  }

  lemma StoredDestroy<T>(
    helper: Helper, mems: Memory<T>, mem: seq<Block<T>>, objects: map<u32, T>, p: u32, o: nat, limit: nat,
    capacity: nat)
    requires Shaped(mems, capacity) && |mems| <= limit
    requires Decodes(helper, limit, capacity) && Stored(helper, mems, objects)
    requires p < |mems| && Freed(mems[p], mem, o)
    ensures Stored(helper, mems[p := mem], objects - {helper.MakeHandle(p, o)})
  {
    var mems': Memory<T> := mems[p := mem];
    var handle := helper.MakeHandle(p, o);
    var objects' := objects - {handle};
    forall q: u32, r: nat | q < |mems'| && r < |mems'[q]|
      ensures StoredAt(helper, mems', objects', q, r)
    {
      var h := helper.MakeHandle(q, r);
      assert q < |mems| ==> StoredAt(helper, mems, objects, q, r);
      assert helper.ExtractPool(h) == q && helper.ExtractOffset(h) == r;
      assert q != p ==> mems'[q] == mems[q];
      if q != p || r != o {
        assert h != handle;
      }
    }
  }

  lemma StoredMore<T>(
    helper: Helper, mems: Memory<T>, mem: seq<Block<T>>, objects: map<u32, T>, limit: nat, capacity: nat)
    requires Shaped(mems, capacity) && |mems| < limit
    requires Decodes(helper, limit, capacity) && Stored(helper, mems, objects)
    requires |mem| == capacity && limit < B && forall o :: 0 <= o < capacity ==> !mem[o].Object?
    ensures Stored(helper, mems + [mem], objects)
  {
    var mems': Memory<T> := mems + [mem];
    forall q: u32, r: nat | q < |mems'| && r < |mems'[q]|
      ensures StoredAt(helper, mems', objects, q, r)
    {
      var h := helper.MakeHandle(q, r);
      assert q < |mems| ==> StoredAt(helper, mems, objects, q, r);
      assert helper.ExtractPool(h) == q && helper.ExtractOffset(h) == r;
    }
  }

  class Manager<T> {
    const capacity: u32
    const maxPools: u32
    const helper: Helper
    var pools: seq<Pool<T>>
    ghost var objects: map<u32, T>

    ghost function Footprint(): set<object>
      reads this
    {
      {this} + (set p: Pool<T> | p in pools) + (set p: Pool<T> | p in pools :: p.mem)
    }

    ghost function Mems(): Memory<T>
      reads Footprint()
    {
      seq(|pools|, i requires 0 <= i < |pools| reads Footprint() => pools[i].mem[..])
    }

    ghost predicate Apart()
      reads this
    {
      forall i, j :: 0 <= i < j < |pools| ==> pools[i] != pools[j] && pools[i].mem != pools[j].mem
    }

    ghost predicate Valid()
      reads Footprint()
    {
      && capacity > 0 && Decodes(helper, maxPools, capacity)
      && |pools| <= maxPools && Apart()
      && (forall i :: 0 <= i < |pools| ==> pools[i].mem.Length == capacity && pools[i].Valid())
      && Stored(helper, Mems(), objects)
    }

    /** Shifting a word by its whole width is undefined. */
    constructor (capacity: u32, maxPools: u32)
      requires BitLength((capacity - 1) % B) < 32 && BitLength(maxPools) < 32
      ensures pools == [] && objects == map[]
      ensures this.capacity == capacity && this.maxPools == maxPools
      ensures Valid() <==> Decodable(capacity, maxPools)
    {
      hide Pow, BitLength, Decodes, Decodable, Built;
      this.capacity, this.maxPools := capacity, maxPools;
      helper := new Helper(capacity, maxPools);
      pools, objects := [], map[];
      new;
      CapacityPositive(capacity);
      DecodesExactly(helper, capacity, maxPools);
    }

    lemma AllLive()
      requires Valid() && |pools| == maxPools && forall p :: p in pools ==> p.head.None?
      ensures forall p: u32, o: nat :: p < maxPools && o < capacity ==> helper.MakeHandle(p, o) in objects
    {
      hide Decodes;
      forall p: u32, o: nat | p < maxPools && o < capacity
        ensures helper.MakeHandle(p, o) in objects
      {
        assert pools[p] in pools && pools[p].mem[o].Object?;
        assert StoredAt(helper, Mems(), objects, p, o);
      }
    }

    /** One pool has been added, with all its blocks free in order. */
    ghost predicate Added(was: seq<Pool<T>>)
      reads Footprint()
    {
      && |pools| == |was| + 1 && was <= pools
      && pools[|was|].head == Some(0) && pools[|was|].free == seq(capacity, (i: nat) => i)
    }

    /** taskete's `find_or_create_pool`: nothing stands for `bad_alloc`. It takes the first pool with a
        free block, and adds one only if there is none. */
    method FindOrCreatePool() returns (index: Option<nat>)
      requires Valid()
      modifies this`pools
      ensures Valid() && fresh(Footprint() - old(Footprint()))
      ensures index.None? <==> |old(pools)| == maxPools && forall p :: p in old(pools) ==> p.head.None?
      ensures index.None? ==> pools == old(pools)
      ensures index.Some? ==> index.value < |pools| && pools[index.value].head.Some?
      ensures index.Some? ==> forall j :: 0 <= j < index.value ==> j < |old(pools)| && old(pools)[j].head.None?
      ensures index.Some? && index.value < |old(pools)| ==> pools == old(pools)
      ensures index.Some? && index.value >= |old(pools)| ==> Added(old(pools))
    {
      hide Decodes, Stored;
      var i := 0;
      while i < |pools|
        invariant 0 <= i <= |pools| && forall j :: 0 <= j < i ==> pools[j].head.None?
      {
        if pools[i].head.Some? {
          return Some(i);
        }
        i := i + 1;
      }
      if |pools| == maxPools {
        return None;
      }
      AddPool();
      index := Some(|pools| - 1);
    }

    method AddPool()
      requires Valid() && |pools| < maxPools
      modifies this`pools
      ensures Valid() && fresh(Footprint() - old(Footprint()))
      ensures Added(old(pools))
    {
      hide Decodes, Stored, Laid;
      ghost var mems := Mems();
      var pool := new Pool<T>(capacity);
      StoredMore(helper, mems, pool.mem[..], objects, maxPools, capacity);
      pools := pools + [pool];
      assert Mems() == mems + [pool.mem[..]];
    }

    /** Constructing fails exactly when every handle is live; otherwise the handle is new. It is that of
        the head of the first pool with a free block, or of the first block of a pool added. */
    method Construct(value: T) returns (handle: Option<u32>)
      requires Valid()
      modifies Footprint()
      ensures Valid() && fresh(Footprint() - old(Footprint()))
      ensures handle.None? ==> objects == old(objects) && forall p: u32, o: nat ::
                p < maxPools && o < capacity ==> helper.MakeHandle(p, o) in objects
      ensures handle.Some? ==> handle.value !in old(objects) && objects == old(objects)[handle.value := value]
      ensures handle.Some? ==>
                var h := handle.value;
                var p, o := helper.ExtractPool(h), helper.ExtractOffset(h);
                p < maxPools && o < capacity && helper.MakeHandle(p, o) == h
      ensures handle.None? ==> pools == old(pools)
      ensures handle.Some? ==>
                var p, o := helper.ExtractPool(handle.value), helper.ExtractOffset(handle.value);
                && (forall j :: 0 <= j < p ==> j < |old(pools)| && old(pools[j].head).None?)
                && (if p < |old(pools)| then
                      && pools == old(pools) && old(pools[p].head) == Some(o)
                      && old(pools[p].free) == [o] + pools[p].free
                    else
                      && |pools| == |old(pools)| + 1 && old(pools) <= pools && p == |old(pools)| && o == 0
                      && [o] + pools[p].free == seq(capacity, (i: nat) => i))
                && (forall j :: 0 <= j < |old(pools)| && j != p ==> pools[j].free == old(pools[j].free))
    {
      hide Decodes, Valid;
      var index := FindOrCreatePool();
      if index.None? {
        AllLive();
        return None;
      }
      var h := Fill(index.value, value);
      handle := Some(h);
    }

    /** Constructing in the free block at the head of a pool. */
    method Fill(i: nat, value: T) returns (handle: u32)
      requires Valid() && i < |pools| && pools[i].head.Some?
      modifies this`objects, pools[i], pools[i].mem
      ensures Valid()
      ensures handle !in old(objects) && objects == old(objects)[handle := value]
      ensures var p, o := helper.ExtractPool(handle), helper.ExtractOffset(handle);
              && p < maxPools && o < capacity && helper.MakeHandle(p, o) == handle
              && p == i && old(pools[i].head) == Some(o) && old(pools[i].free) == [o] + pools[i].free
      ensures forall j :: 0 <= j < |pools| && j != i ==> pools[j].free == old(pools[j].free)
    {
      hide Laid, Decodes, Stored;
      var pool := pools[i];
      ghost var mems := Mems();
      var o := pool.TakeHead(value);
      StoredConstruct(helper, mems, objects, i, o, value, maxPools, capacity);
      handle := helper.MakeHandle(i, o);
      objects := objects[handle := value];
      assert Mems() == mems[i := mems[i][o := Object(value)]];
    }

    /** taskete's `get`: the object constructed under the handle. */
    method Get(handle: u32) returns (value: T)
      requires Valid() && handle in objects
      ensures value == objects[handle]
    {
      hide Decodes, Laid;
      var p, o := helper.ExtractPool(handle), helper.ExtractOffset(handle);
      assert StoredAt(helper, Mems(), objects, p, o);
      value := pools[p].mem[o].value;
    }

    /** Destroying frees the block, which goes into its pool's list. */
    method Destroy(handle: u32)
      requires Valid() && handle in objects
      modifies Footprint()
      ensures Valid() && Footprint() == old(Footprint())
      ensures objects == old(objects) - {handle} && pools == old(pools)
      ensures var p, o := helper.ExtractPool(handle), helper.ExtractOffset(handle);
              && p < |pools| && pools[p].free == Insert(old(pools[p].free), o)
              && forall j :: 0 <= j < |pools| && j != p ==> pools[j].free == old(pools[j].free)
    {
      hide Decodes, Laid, Insert, Freed;
      var p, o := helper.ExtractPool(handle), helper.ExtractOffset(handle);
      assert StoredAt(helper, Mems(), objects, p, o);
      Free(p, o);
    }

    method Free(p: u32, o: nat)
      requires Valid() && p < |pools| && o < capacity && pools[p].mem[o].Object?
      modifies this`objects, pools[p], pools[p].mem
      ensures Valid() && objects == old(objects) - {helper.MakeHandle(p, o)}
      ensures pools[p].free == Insert(old(pools[p].free), o)
    {
      hide Laid, Insert, Freed, Decodes, Stored;
      var pool := pools[p];
      ghost var mems := Mems();
      pool.MarkAsFree(o);
      StoredDestroy(helper, mems, pool.mem[..], objects, p, o, maxPools, capacity);
      objects := objects - {helper.MakeHandle(p, o)};
      assert Mems() == mems[p := pool.mem[..]];
    }
  }
}
