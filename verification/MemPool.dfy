/** An allocator that hands out items of fixed blocks and keeps the free ones in a linked list. An item
    is free or live and never both, the links go through the free items only, and the counters of the pool
    say how many items are live. */
module MemPool {

  class Item {
    var next: Item?

    constructor ()
      ensures next == null
    {
      next := null;
    }
  }

  /** The largest of the numbers. */
  function Max(history: seq<nat>): nat {
    if history == [] then 0
    else
      var n, most := history[|history| - 1], Max(history[..|history| - 1]);
      if most < n then n else most
  }

  lemma {:induction false} MaxIsMost(history: seq<nat>)
    ensures forall n | n in history :: n <= Max(history)
    ensures history != [] ==> Max(history) in history
  {
    if history != [] {
      var front := history[..|history| - 1];
      MaxIsMost(front);
      assert history == front + [history[|history| - 1]];
    }
  }

  lemma MaxMore(history: seq<nat>, n: nat)
    ensures Max(history + [n]) == if Max(history) < n then n else Max(history)
  {
    assert (history + [n])[..|history|] == history;
  }

  ghost function ItemsOf(blocks: seq<array<Item>>): set<Item>
    reads blocks
  {
    set b, k | b in blocks && 0 <= k < b.Length :: b[k]
  }

  lemma NoElements()
    ensures Elements([]) == {}
  {
  }

  ghost function Elements(s: seq<Item>): set<Item> {
    set i | i in s
  }

  lemma ElementsSplit(s: seq<Item>)
    requires s != [] && forall i, j | 0 <= i < j < |s| :: s[i] != s[j]
    ensures Elements(s) == {s[0]} + Elements(s[1..]) && s[0] !in Elements(s[1..])
  {
    assert s == [s[0]] + s[1..];
  }

  lemma ElementsMore(s: seq<Item>, x: Item)
    requires x !in Elements(s)
    ensures Elements([x] + s) == {x} + Elements(s) && forall i | 0 <= i < |s| :: s[i] != x
  {
    assert forall i | 0 <= i < |s| :: s[i] in Elements(s);
  }

  lemma BlockAdded(blocks: seq<array<Item>>, block: array<Item>, known: set<Item>)
    requires forall k | 0 <= k < block.Length :: block[k] !in known
    ensures ItemsOf(blocks + [block]) == ItemsOf(blocks) + Elements(block[..]) && known !! Elements(block[..])
  {
    assert ItemsOf([block]) == Elements(block[..]);
    assert ItemsOf(blocks + [block]) == ItemsOf(blocks) + ItemsOf([block]);
  }

  /** The item with number `i` points to the one behind it. */
  ghost predicate LinkedOn(s: seq<Item>, i: nat)
    requires i < |s|
    reads s
  {
    s[i].next == if i + 1 < |s| then s[i + 1] else null
  }

  class Pool {
    const itemsPerBlock: nat
    var blocks: seq<array<Item>>
    var root: Item?
    var currentAllocs: int
    var allocs: int
    var maxAllocs: int
    var untracked: int
    /** The items that are handed out, the free ones in order, and how many were handed out after each
        operation. */
    ghost var live: set<Item>
    ghost var free: seq<Item>
    ghost var history: seq<nat>

    /** The free list runs from the root through every free item once. */
    ghost predicate FreeList()
      reads this`root, this`free, free
    {
      && root == (if free == [] then null else free[0])
      && (forall i, j | 0 <= i < j < |free| :: free[i] != free[j])
      && (forall i | 0 <= i < |free| :: LinkedOn(free, i))
    }

    /** Every item of every block is either free or handed out. */
    ghost predicate Partition()
      reads this`live, this`free, this`blocks, blocks
    {
      live !! Elements(free) && live + Elements(free) == ItemsOf(blocks) && forall b | b in blocks ::
        b.Length == itemsPerBlock
    }

    ghost predicate Counted()
      reads this`live, this`currentAllocs, this`maxAllocs, this`history
    {
      currentAllocs == |live| <= maxAllocs == Max(history)
    }

    ghost predicate Valid()
      reads this, free, blocks
    {
      itemsPerBlock > 0 && FreeList() && Partition() && Counted()
    }

    constructor (itemsPerBlock: nat)
      requires itemsPerBlock > 0
      ensures Valid() && live == {} && free == [] && blocks == [] && this.itemsPerBlock == itemsPerBlock
      ensures currentAllocs == allocs == maxAllocs == untracked == 0 && history == []
    {
      this.itemsPerBlock, this.blocks, this.root := itemsPerBlock, [], null;
      this.currentAllocs, this.allocs, this.maxAllocs, this.untracked := 0, 0, 0, 0;
      this.live, this.free, this.history := {}, [], [];
    }

    /** A block whose items are linked one to the next. */
    method NewBlock() returns (block: array<Item>)
      requires itemsPerBlock > 0
      ensures fresh(block) && block.Length == itemsPerBlock && (forall k | 0 <= k < block.Length :: fresh(block[k]))
      ensures forall j, k | 0 <= j < k < block.Length :: block[j] != block[k]
      ensures forall k | 0 <= k < block.Length :: LinkedOn(block[..], k)
    {
      block := MakeItems(itemsPerBlock);
      var i := 0;
      while i < block.Length - 1
        invariant i <= block.Length - 1
        invariant forall k | 0 <= k < block.Length :: fresh(block[k])
        invariant forall j, k | 0 <= j < k < block.Length :: block[j] != block[k]
        invariant forall k | 0 <= k < i :: block[k].next == block[k + 1]
      {
        block[i].next := block[i + 1];
        i := i + 1;
      }
      block[block.Length - 1].next := null;
    }

    method MakeItems(n: nat) returns (block: array<Item>)
      requires n > 0
      ensures fresh(block) && block.Length == n && (forall k | 0 <= k < n :: fresh(block[k]))
      ensures forall j, k | 0 <= j < k < n :: block[j] != block[k]
    {
      var first := new Item();
      block := new Item[n](_ => first);
      var k := 1;
      while k < n
        invariant 1 <= k <= n && fresh(block)
        invariant forall j | 0 <= j < n :: fresh(block[j])
        invariant forall i, j | 0 <= i < j < k :: block[i] != block[j]
      {
        var item := new Item();
        block[k] := item;
        k := k + 1;
      }
    }

    /** With no free item left, the items of a new block become the free ones. */
    method Grow()
      requires Valid() && root == null
      modifies this`root, this`blocks, this`free
      ensures Valid() && |free| == itemsPerBlock && |blocks| == |old(blocks)| + 1 && fresh(free)
      ensures ItemsOf(blocks) == old(ItemsOf(blocks)) + Elements(free)
    {
      hide ItemsOf, Elements, Max;
      ghost var known := live;
      var block := NewBlock();
      NoElements();
      BlockAdded(blocks, block, known);
      root := block[0];
      free := block[..];
      blocks := blocks + [block];
      forall i: nat | i < |free| ensures LinkedOn(free, i) {
        assert LinkedOn(block[..], i);
      }
    }

    lemma FreeIsDistinct()
      requires FreeList()
      ensures (root == null <==> free == []) && forall i, j | 0 <= i < j < |free| :: free[i] != free[j]
    {
    }

    method PopFree() returns (result: Item)
      requires FreeList() && root != null
      modifies this`root, this`free
      ensures FreeList() && result == old(free)[0] && free == old(free)[1..]
    {
      result := root;
      assert LinkedOn(free, 0);
      root := root.next;
      ghost var before := free;
      free := free[1..];
      forall i: nat | i < |free| ensures LinkedOn(free, i) {
        assert old(LinkedOn(before, i + 1));
      }
    }

    method PushFree(mem: Item)
      requires FreeList() && forall i | 0 <= i < |free| :: free[i] != mem
      modifies this`root, this`free, mem
      ensures FreeList() && free == [mem] + old(free)
    {
      ghost var before := free;
      mem.next := root;
      root := mem;
      free := [mem] + free;
      forall i: nat | i < |free| ensures LinkedOn(free, i) {
        if i > 0 {
          assert old(LinkedOn(before, i - 1));
        }
      }
    }

    method CountUp(ghost item: Item)
      requires Counted() && item !in live
      modifies this`live, this`currentAllocs, this`maxAllocs, this`history, this`allocs, this`untracked
      ensures Counted() && live == old(live) + {item} && history == old(history) + [|live|]
      ensures allocs == old(allocs) + 1 && untracked == old(untracked) + 1
    {
      live := live + {item};
      currentAllocs := currentAllocs + 1;
      if currentAllocs > maxAllocs {
        maxAllocs := currentAllocs;
      }
      MaxMore(history, |live|);
      history := history + [|live|];
      allocs := allocs + 1;
      untracked := untracked + 1;
    }

    method CountDown(ghost item: Item)
      requires Counted() && item in live
      modifies this`live, this`currentAllocs, this`history
      ensures Counted() && live == old(live) - {item} && history == old(history) + [|live|]
    {
      currentAllocs := currentAllocs - 1;
      live := live - {item};
      MaxMore(history, |live|);
      history := history + [|live|];
    }

    /** The root is handed out. */
    method TakeRoot() returns (result: Item)
      requires Valid() && root != null
      modifies this
      ensures Valid() && result == old(free)[0] && free == old(free)[1..] && live == old(live) + {result}
      ensures blocks == old(blocks)
      ensures history == old(history) + [|live|] && allocs == old(allocs) + 1 && untracked == old(untracked) + 1
    {
      hide ItemsOf, Elements, Counted, FreeList;
      FreeIsDistinct();
      ElementsSplit(free);
      result := PopFree();
      CountUp(result);
    }

    /** An item that nobody holds; a new block is made when there is none. */
    method Alloc() returns (result: Item)
      requires Valid()
      modifies this
      ensures Valid() && result !in old(live) && live == old(live) + {result}
      ensures old(free) != [] ==> result == old(free)[0] && free == old(free)[1..] && blocks == old(blocks)
      ensures old(free) == [] ==> fresh(result) && |blocks| == |old(blocks)| + 1 && |free| == itemsPerBlock - 1
      ensures old(ItemsOf(blocks)) <= ItemsOf(blocks)
      ensures history == old(history) + [|live|] && allocs == old(allocs) + 1 && untracked == old(untracked) + 1
    {
      if root == null {
        Grow();
      }
      assert free[0] in Elements(free);
      result := TakeRoot();
    }

    /** An item that was handed out comes back to the front of the free list; null is ignored. */
    method Free(mem: Item?)
      requires Valid() && (mem != null ==> mem in live)
      modifies this, if mem == null then {} else {mem}
      ensures Valid() && blocks == old(blocks) && ItemsOf(blocks) == old(ItemsOf(blocks)) && maxAllocs == old(maxAllocs)
      ensures mem == null ==> live == old(live) && free == old(free) && history == old(history)
      ensures mem != null ==>
              live == old(live) - {mem} && free == [mem] + old(free) && history == old(history) + [|live|]
    {
      hide Valid, ItemsOf, Elements;
      if mem != null {
        GiveBack(mem);
      }
    }

    method GiveBack(mem: Item)
      requires Valid() && mem in live
      modifies this`root, this`free, this`live, this`currentAllocs, this`history, mem
      ensures Valid() && ItemsOf(blocks) == old(ItemsOf(blocks))
      ensures live == old(live) - {mem} && free == [mem] + old(free) && history == old(history) + [|live|]
    {
      hide ItemsOf, Elements, Counted, FreeList, Partition;
      ghost var were, freed := live, free;
      Partitioned(mem);
      PushFree(mem);
      CountDown(mem);
      Returned(were, freed, mem);
    }

    lemma Partitioned(mem: Item)
      requires Partition() && mem in live
      ensures live !! Elements(free) && live + Elements(free) == ItemsOf(blocks)
      ensures (forall b | b in blocks :: b.Length == itemsPerBlock) && forall i | 0 <= i < |free| :: free[i] != mem
    {
      assert forall i | 0 <= i < |free| :: free[i] in Elements(free);
    }

    /** An item that was handed out is free. */
    lemma Returned(were: set<Item>, freed: seq<Item>, mem: Item)
      requires mem in were && were !! Elements(freed) && were + Elements(freed) == ItemsOf(blocks)
      requires live == were - {mem} && free == [mem] + freed && forall b | b in blocks :: b.Length == itemsPerBlock
      ensures Partition()
    {
      ElementsMore(freed, mem);
    }

    method SetTracked()
      modifies this`untracked
      ensures untracked == old(untracked) - 1
    {
      untracked := untracked - 1;
    }

    /** The item met after so many steps along the free list. */
    ghost function Follow(from: Item?, steps: nat): Item?
      reads this, free
      decreases steps
    {
      if steps == 0 || from == null || from !in free then from else Follow(from.next, steps - 1)
    }

    /** The free list ends after as many steps as there are free items. */
    lemma {:induction false} FreeListEnds(i: nat, steps: nat)
      requires FreeList() && i + steps <= |free|
      ensures Follow(if i < |free| then free[i] else null, steps) ==
              if i + steps < |free| then free[i + steps] else null
      decreases steps
    {
      if steps > 0 {
        assert LinkedOn(free, i);
        FreeListEnds(i + 1, steps - 1);
      }
    }

    /** The counters say what they are called: the items handed out now, and at most. */
    lemma CountersAreRight()
      requires Valid()
      ensures currentAllocs == |live| && forall n | n in history :: n <= maxAllocs
      ensures history != [] ==> maxAllocs in history
    {
      MaxIsMost(history);
    }
  }
}
