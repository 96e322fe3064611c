/** `BatchAllocator` of json_batchallocator.h: pages carved into blocks of `objectPerAllocation`
    objects, and a free list threaded through the released blocks. */
module BatchAllocation {
  import opened Wrappers

  /** A block's place: the page it lies in and the object it starts at. */
  datatype Addr = Addr(page: nat, offset: nat)

  /** `BatchInfo`: `used_` and `end_` as offsets into the page's buffer, in objects. */
  datatype Batch = Batch(page: nat, used: nat, end: nat)

  /** The list of batches from its head, the position of `currentBatch_`, and how many pages have
      been made so far. */
  datatype Pages = Pages(list: seq<Batch>, current: nat, made: nat)

  // ----- Whole numbers of blocks -----

  /** `n` objects are a whole number of blocks of `size` objects. */
  predicate Whole(n: nat, size: nat)
    requires size > 0
  {
    n == 0 || (n >= size && Whole(n - size, size))
  }

  lemma {:induction false} WholeGap(a: nat, b: nat, size: nat)
    requires size > 0 && Whole(a, size) && Whole(b, size) && a < b
    ensures a + size <= b
  {
    if a > 0 {
      WholeGap(a - size, b - size, size);
    }
  }

  lemma {:induction false} WholeTimes(n: nat, size: nat)
    requires size > 0
    ensures Whole(n * size, size)
  {
    if n > 0 {
      assert n * size - size == (n - 1) * size && (n - 1) * size >= 0;
      WholeTimes(n - 1, size);
    }
  }

  // ----- Carving a new block -----

  predicate Full(b: Batch) { b.used == b.end }

  /** The first batch at or after a position that is not full, or the end of the list. */
  function Search(list: seq<Batch>, from: nat): (k: nat)
    requires from <= |list|
    ensures from <= k <= |list| && (k < |list| ==> !Full(list[k]))
    ensures forall j :: from <= j < k ==> Full(list[j])
    decreases |list| - from
  {
    if from < |list| && Full(list[from]) then Search(list, from + 1) else from
  }

  /** The batch to carve from: the current one, a later one with room, or a new page put at the head. */
  function Room(p: Pages, perPage: nat): (q: Pages)
    requires p.current < |p.list|
    ensures q.current < |q.list|
  {
    if !Full(p.list[p.current]) then p
    else
      var k := Search(p.list, p.current + 1);
      if k < |p.list| then p.(current := k)
      else Pages([Batch(p.made, 0, perPage)] + p.list, 0, p.made + 1)
  }

  function Carve(p: Pages, size: nat, perPage: nat): (r: (Pages, Addr))
    requires p.current < |p.list|
    ensures r.0.current < |r.0.list|
  {
    var q := Room(p, perPage);
    var b := q.list[q.current];
    (q.(list := q.list[q.current := b.(used := b.used + size)]), Addr(b.page, b.used))
  }

  /** The allocator as constructed: one dummy page without room. */
  const START := Pages([Batch(0, 0, 0)], 0, 1)

  /** Every batch but the current one is full, so searching on always ends in a new page. */
  ghost predicate PagesOk(p: Pages, size: nat, perPage: nat) {
    && size > 0 && perPage > 0 && p.current < |p.list| == p.made
    && (forall i :: 0 <= i < |p.list| ==> p.list[i].page == |p.list| - 1 - i)
    && (forall i :: 0 <= i < |p.list| && i != p.current ==> Full(p.list[i]))
    && (forall i :: 0 <= i < |p.list| ==> Whole(p.list[i].used, size))
    && (forall i :: 0 <= i < |p.list| ==> p.list[i].end == if p.list[i].page == 0 then 0 else perPage)
    && (Whole(perPage, size) ==> forall i :: 0 <= i < |p.list| ==> p.list[i].used <= p.list[i].end)
  }

  /** The blocks carved so far. */
  ghost predicate IsCarved(p: Pages, size: nat, a: Addr)
    requires size > 0
  {
    a.page < |p.list| && Whole(a.offset, size) && a.offset < p.list[|p.list| - 1 - a.page].used
  }

  lemma {:induction false} RoomKeeps(p: Pages, size: nat, perPage: nat, a: Addr)
    requires PagesOk(p, size, perPage)
    ensures var q := Room(p, perPage);
            PagesOk(q, size, perPage) && !Full(q.list[q.current]) &&
            (q == p || q == Pages([Batch(p.made, 0, perPage)] + p.list, 0, p.made + 1)) &&
            (IsCarved(q, size, a) <==> IsCarved(p, size, a))
  {
    if Full(p.list[p.current]) {
      assert Search(p.list, p.current + 1) == |p.list|;
      var q := Pages([Batch(p.made, 0, perPage)] + p.list, 0, p.made + 1);
      assert Room(p, perPage) == q;
      hide Room, Search, Whole;
      assert forall i :: 1 <= i < |q.list| ==> q.list[i] == p.list[i - 1];
      WholeNothing(size);
      if a.page < |p.list| {
        assert q.list[|q.list| - 1 - a.page] == p.list[|p.list| - 1 - a.page];
      }
    }
  }

  lemma WholeNothing(size: nat)
    requires size > 0
    ensures Whole(0, size)
  {
  }

  /** Behind the block at `used` the next block starts, and between them none. */
  lemma {:induction false} NextBlock(used: nat, size: nat, x: nat)
    requires size > 0 && Whole(used, size)
    ensures Whole(used + size, size)
    ensures Whole(x, size) && x < used + size ==> x <= used
    ensures Whole(x, size) && used < x ==> used + size <= x
  {
    if Whole(x, size) && used < x {
      WholeGap(used, x, size);
    }
  }

  /** Carving adds exactly one block, which was not carved before. */
  lemma {:induction false} CarveAdds(p: Pages, size: nat, perPage: nat, a: Addr)
    requires PagesOk(p, size, perPage)
    ensures var (after, block) := Carve(p, size, perPage);
            PagesOk(after, size, perPage) && !IsCarved(p, size, block) &&
            (IsCarved(after, size, a) <==> IsCarved(p, size, a) || a == block)
  {
    var q := Room(p, perPage);
    var (after, block) := Carve(p, size, perPage);
    RoomKeeps(p, size, perPage, a);
    RoomKeeps(p, size, perPage, block);
    hide Room;
    UseCurrent(q, size, perPage, a);
  }

  /** Taking the next block of the current batch. */
  lemma {:induction false} UseCurrent(q: Pages, size: nat, perPage: nat, a: Addr)
    requires PagesOk(q, size, perPage) && !Full(q.list[q.current])
    ensures var b := q.list[q.current];
            var after, block := q.(list := q.list[q.current := b.(used := b.used + size)]), Addr(b.page, b.used);
            PagesOk(after, size, perPage) && !IsCarved(q, size, block) &&
            (IsCarved(after, size, a) <==> IsCarved(q, size, a) || a == block)
  {
    var b := q.list[q.current];
    var after := q.(list := q.list[q.current := b.(used := b.used + size)]);
    NextBlock(b.used, size, a.offset);
    NextBlock(b.used, size, b.end);
    assert b.page == |q.list| - 1 - q.current;
    assert forall i :: 0 <= i < |q.list| && i != q.current ==> after.list[i] == q.list[i];
    if a.page < |q.list| && a.page != b.page {
      assert after.list[|q.list| - 1 - a.page] == q.list[|q.list| - 1 - a.page];
    }
  }

  lemma {:induction false} CarveAddsOne(p: Pages, size: nat, perPage: nat)
    requires PagesOk(p, size, perPage)
    ensures var r := Carve(p, size, perPage);
            PagesOk(r.0, size, perPage) && !IsCarved(p, size, r.1) &&
            forall a :: IsCarved(r.0, size, a) <==> IsCarved(p, size, a) || a == r.1
  {
    assert p.current < |p.list| && size > 0;
    hide PagesOk, IsCarved, Carve;
    forall a
      ensures var r := Carve(p, size, perPage); IsCarved(r.0, size, a) <==> IsCarved(p, size, a) || a == r.1
    {
      CarveAdds(p, size, perPage, a);
    }
    CarveAdds(p, size, perPage, Addr(0, 0));
  }

  /** Different blocks do not overlap. */
  lemma {:induction false} BlocksApart(p: Pages, size: nat, a: Addr, b: Addr)
    requires size > 0 && IsCarved(p, size, a) && IsCarved(p, size, b) && a != b && a.page == b.page
    ensures a.offset + size <= b.offset || b.offset + size <= a.offset
  {
    if a.offset < b.offset {
      WholeGap(a.offset, b.offset, size);
    } else {
      WholeGap(b.offset, a.offset, size);
    }
  }

  /** With pages of a whole number of blocks, every block lies inside its page. */
  lemma {:induction false} BlocksInPage(p: Pages, size: nat, perPage: nat, a: Addr)
    requires PagesOk(p, size, perPage) && IsCarved(p, size, a) && Whole(perPage, size)
    ensures a.page > 0 && a.offset + size <= perPage
  {
    var b := p.list[|p.list| - 1 - a.page];
    WholeGap(a.offset, b.used, size);
    assert b.used <= b.end;
  }

  // ----- When do blocks stay inside their pages? -----

  function CarveMany(n: nat, size: nat, perPage: nat): (p: Pages)
    ensures p.current < |p.list|
  {
    if n == 0 then START else Carve(CarveMany(n - 1, size, perPage), size, perPage).0
  }

  lemma {:induction false} CarveManyOk(n: nat, size: nat, perPage: nat)
    requires size > 0 && perPage > 0
    ensures PagesOk(CarveMany(n, size, perPage), size, perPage)
  {
    if n > 0 {
      CarveManyOk(n - 1, size, perPage);
      CarveAdds(CarveMany(n - 1, size, perPage), size, perPage, Addr(0, 0));
    }
  }

  /** A page is allocated with room for `perPage` blocks of `size` objects; every block of every run
      of allocations lies inside that. */
  ghost predicate AlwaysInPage(size: nat, perPage: nat) {
    forall n: nat :: Carve(CarveMany(n, size, perPage), size, perPage).1.offset + size <= size * perPage
  }

  /** A page whose end is not on a block boundary is never found full. */
  lemma {:induction false} NeverFull(n: nat, size: nat, perPage: nat)
    requires size > 0 && !Whole(perPage, size) && n > 0
    ensures CarveMany(n, size, perPage) == Pages([Batch(1, n * size, perPage), Batch(0, 0, 0)], 0, 2)
  {
    if n == 1 {
      assert CarveMany(0, size, perPage) == START;
      assert Search(START.list, 1) == 1;
    } else {
      NeverFull(n - 1, size, perPage);
      assert (n - 1) * size != perPage by {
        WholeTimes(n - 1, size);
      }
      assert (n - 1) * size + size == n * size;
    }
  }

  /** The page size has to be a whole number of blocks: then no run of allocations leaves a page, and
      otherwise some run does. */
  lemma {:induction false} InPageIff(size: nat, perPage: nat)
    requires size > 0 && perPage > 0
    ensures AlwaysInPage(size, perPage) <==> Whole(perPage, size)
  {
    if Whole(perPage, size) {
      forall n: nat
        ensures Carve(CarveMany(n, size, perPage), size, perPage).1.offset + size <= size * perPage
      {
        NextInPage(n, size, perPage);
      }
    } else {
      LeavesPage(size, perPage);
    }
  }

  lemma {:induction false} NextInPage(n: nat, size: nat, perPage: nat)
    requires size > 0 && perPage > 0 && Whole(perPage, size)
    ensures Carve(CarveMany(n, size, perPage), size, perPage).1.offset + size <= size * perPage
  {
    hide Carve, CarveMany, IsCarved, PagesOk;
    var p := CarveMany(n, size, perPage);
    var (after, block) := Carve(p, size, perPage);
    CarveManyOk(n, size, perPage);
    CarveAdds(p, size, perPage, block);
    BlocksInPage(after, size, perPage, block);
    assert size * perPage == perPage + (size - 1) * perPage && (size - 1) * perPage >= 0;
  }

  lemma {:induction false} LeavesPage(size: nat, perPage: nat)
    requires size > 0 && perPage > 0 && !Whole(perPage, size)
    ensures !AlwaysInPage(size, perPage)
  {
    NeverFull(perPage, size, perPage);
    WholeTimes(perPage, size);
    assert perPage * size != perPage;
    assert Carve(CarveMany(perPage, size, perPage), size, perPage).1.offset == perPage * size;
    assert perPage * size + size > size * perPage;
  }

  /** The default of 255 objects to a page with blocks of eight: the 256th block starts where the page,
      made for 255 blocks, ends. */
  lemma {:induction false} DefaultPageOverrun()
    ensures Carve(CarveMany(255, 8, 255), 8, 255).1 == Addr(1, 8 * 255)
    ensures !AlwaysInPage(8, 255)
  {
    NotWhole(31);
    assert !Whole(255, 8);
    NeverFull(255, 8, 255);
    WholeTimes(255, 8);
    hide CarveMany, Whole;
    assert Carve(CarveMany(255, 8, 255), 8, 255).1.offset + 8 > 8 * 255;
  }

  lemma {:induction false} NotWhole(k: nat)
    ensures !Whole(7 + 8 * k, 8)
  {
    if k > 0 {
      NotWhole(k - 1);
    }
  }

  // ----- The allocator -----

  /** Following the links from `head` through memory passes exactly the free blocks. */
  predicate Chained(head: Option<Addr>, cells: map<Addr, Option<Addr>>, free: seq<Addr>)
    decreases |free|
  {
    if free == [] then head == None
    else head == Some(free[0]) && free[0] in cells && Chained(cells[free[0]], cells, free[1..])
  }

  lemma {:induction false} ChainIgnores(head: Option<Addr>, cells: map<Addr, Option<Addr>>, free: seq<Addr>, a: Addr, word: Option<Addr>)
    requires Chained(head, cells, free) && a !in free
    ensures Chained(head, cells[a := word], free)
    decreases |free|
  {
    if free != [] {
      ChainIgnores(cells[free[0]], cells, free[1..], a, word);
    }
  }

  class BatchAllocator {
    const objectPerAllocation: nat
    const objectsPerPage: nat
    var pages: Pages
    var freeHead: Option<Addr>
    /** The first word of every block that has been written to: a link, or whatever the client put
        there. */
    var cells: map<Addr, Option<Addr>>
    ghost var free: seq<Addr>
    ghost var live: set<Addr>

    ghost predicate Valid()
      reads this
    {
      && PagesOk(pages, objectPerAllocation, objectsPerPage)
      && Chained(freeHead, cells, free)
      && Distinct(free)
      && (forall a :: a in free ==> a !in live)
      && (forall a :: IsCarved(pages, objectPerAllocation, a) <==> a in live || a in free)
    }

    constructor (objectPerAllocation: nat, objectsPerPage: nat)
      requires objectPerAllocation > 0 && objectsPerPage >= 16
      ensures Valid() && live == {} && free == []
      ensures this.objectPerAllocation == objectPerAllocation && this.objectsPerPage == objectsPerPage
    {
      this.objectPerAllocation, this.objectsPerPage := objectPerAllocation, objectsPerPage;
      pages, freeHead, cells, free, live := START, None, map[], [], {};
    }

    /** The search loop of `allocate` and the new page behind it. */
    method FindRoom()
      requires pages.current < |pages.list|
      modifies this`pages
      ensures pages == Room(old(pages), objectsPerPage)
    {
      var list, current := pages.list, pages.current;
      if list[current].used == list[current].end {
        current := current + 1;
        while current < |list| && list[current].used == list[current].end
          invariant pages.current < current <= |list|
          invariant Search(list, pages.current + 1) == Search(list, current)
        {
          current := current + 1;
        }
        if current == |list| {
          pages := Pages([Batch(pages.made, 0, objectsPerPage)] + list, 0, pages.made + 1);
        } else {
          pages := pages.(current := current);
        }
      }
    }

    /** `allocate`: the block returned was not in use; it is the block released last if any block is
        free, and otherwise a newly carved one. */
    method Allocate() returns (a: Addr)
      requires Valid()
      modifies this
      ensures Valid() && a !in old(live) && live == old(live) + {a}
      ensures if old(free) != [] then a == old(free)[0] && free == old(free)[1..] && pages == old(pages)
              else free == [] && (pages, a) == Carve(old(pages), objectPerAllocation, objectsPerPage)
    {
      if freeHead.Some? {
        hide PagesOk, IsCarved;
        a := freeHead.value;
        freeHead := cells[a];
        free := free[1..];
        live := live + {a};
      } else {
        assert free == [];
        a := CarveBlock();
      }
    }

    /** The part of `allocate` that runs when no block is free. */
    method CarveBlock() returns (a: Addr)
      requires Valid() && free == []
      modifies this`pages, this`live
      ensures Valid() && a !in old(live) && live == old(live) + {a}
      ensures (pages, a) == Carve(old(pages), objectPerAllocation, objectsPerPage)
    {
      CarveAddsOne(pages, objectPerAllocation, objectsPerPage);
      hide PagesOk, IsCarved, Room;
      FindRoom();
      var b := pages.list[pages.current];
      a := Addr(b.page, b.used);
      pages := pages.(list := pages.list[pages.current := b.(used := b.used + objectPerAllocation)]);
      live := live + {a};
    }

    /** `release` of a block in use. */
    method Release(a: Addr)
      requires Valid() && a in live
      modifies this
      ensures Valid() && live == old(live) - {a} && free == [a] + old(free) && pages == old(pages)
    {
      hide PagesOk, IsCarved;
      ChainIgnores(freeHead, cells, free, a, freeHead);
      cells := cells[a := freeHead];
      freeHead := Some(a);
      assert ([a] + free)[1..] == free;
      free := [a] + free;
      live := live - {a};
    }

    /** The client may write anything into a block it holds. */
    method Write(a: Addr, word: Option<Addr>)
      requires Valid() && a in live
      modifies this`cells
      ensures Valid()
    {
      hide PagesOk, IsCarved;
      ChainIgnores(freeHead, cells, free, a, word);
      cells := cells[a := word];
    }
  }

  datatype Action = Acquire | Give(index: nat) | Scribble(index: nat, word: Option<Addr>)

  predicate Overlap(a: Addr, b: Addr, size: nat) {
    a.page == b.page && a.offset < b.offset + size && b.offset < a.offset + size
  }

  /** Any run of allocations, releases of blocks in use and writes into them: the blocks held by the
      client and the free ones are apart from each other, make up everything carved, and lie inside
      their pages when these hold a whole number of blocks. */
  method RunActions(alloc: BatchAllocator, actions: seq<Action>) returns (held: seq<Addr>)
    requires alloc.Valid() && alloc.live == {}
    modifies alloc
    ensures alloc.Valid() && alloc.objectPerAllocation > 0
    ensures Distinct(held + alloc.free)
    ensures forall a, b :: a in held + alloc.free && b in held + alloc.free && a != b ==>
              !Overlap(a, b, alloc.objectPerAllocation)
    ensures forall a :: IsCarved(alloc.pages, alloc.objectPerAllocation, a) <==> a in held + alloc.free
    ensures Whole(alloc.objectsPerPage, alloc.objectPerAllocation) ==>
              forall a :: a in held + alloc.free ==> a.offset + alloc.objectPerAllocation <= alloc.objectsPerPage
  {
    held := [];
    for k := 0 to |actions|
      invariant alloc.Valid()
      invariant Distinct(held)
      invariant forall a :: a in alloc.live <==> a in held
    {
      hide PagesOk, IsCarved, Chained;
      match actions[k] {
        case Acquire =>
          var a := alloc.Allocate();
          held := held + [a];
        case Give(index) =>
          if index < |held| {
            alloc.Release(held[index]);
            held := Without(held, index);
          }
        case Scribble(index, word) =>
          if index < |held| {
            alloc.Write(held[index], word);
          }
      }
    }
    HeldAndFree(held, alloc.free);
    forall a, b | a in held + alloc.free && b in held + alloc.free && a != b
      ensures !Overlap(a, b, alloc.objectPerAllocation)
    {
      if a.page == b.page {
        BlocksApart(alloc.pages, alloc.objectPerAllocation, a, b);
      }
    }
    if Whole(alloc.objectsPerPage, alloc.objectPerAllocation) {
      forall a | a in held + alloc.free
        ensures a.offset + alloc.objectPerAllocation <= alloc.objectsPerPage
      {
        BlocksInPage(alloc.pages, alloc.objectPerAllocation, alloc.objectsPerPage, a);
      }
    }
  }

  predicate Distinct(blocks: seq<Addr>) {
    forall i, j :: 0 <= i < j < |blocks| ==> blocks[i] != blocks[j]
  }

  lemma {:induction false} HeldAndFree(held: seq<Addr>, free: seq<Addr>)
    requires Distinct(held) && Distinct(free) && forall a :: a in held ==> a !in free
    ensures Distinct(held + free)
  {
    var all := held + free;
    forall i, j | 0 <= i < j < |all|
      ensures all[i] != all[j]
    {
      if i < |held| && |held| <= j {
        assert all[i] in held && all[j] in free;
      }
    }
  }

  function Without(held: seq<Addr>, index: nat): (rest: seq<Addr>)
    requires index < |held| && Distinct(held)
    ensures Distinct(rest)
    ensures forall a :: a in rest <==> a in held && a != held[index]
  {
    held[..index] + held[index + 1..]
  }
}
