/** The memory pools of amqp_mem.c and the rules of amqp_connection.c for recycling them: no buffer
    that a queued or a half-received frame still uses is ever handed out again. */
module AmqpPools {
  import opened AmqpDecoder

  // ----- One pool -----

  /** A block of a pool: one of its pages, which survive recycling, or a block of its own for an
      allocation larger than a page, which does not. */
  datatype Block = Page(index: nat) | Large(serial: nat)

  datatype Region = Region(block: Block, offset: nat, len: nat)

  predicate Apart(a: Region, b: Region) {
    a.block != b.block || a.offset + a.len <= b.offset || b.offset + b.len <= a.offset
  }

  /** `amqp_pool_t`.  `inPage` says whether `alloc_block` is set; it is then the page before
      `nextPage`.  `serials` counts the large blocks ever made. */
  datatype Pool = Pool(pageSize: nat, pages: nat, nextPage: nat, inPage: bool, allocUsed: nat, serials: nat)

  /** `init_amqp_pool` */
  function InitPool(pageSize: nat): Pool {
    Pool(if pageSize > 0 then pageSize else 4096, 0, 0, false, 0, 0)
  }

  /** `recycle_amqp_pool` */
  function Recycle(pool: Pool): Pool {
    pool.(nextPage := 0, inPage := false, allocUsed := 0)
  }

  function RoundUp(amount: nat): (r: nat)
    ensures amount <= r < amount + 8 && r % 8 == 0
  {
    (amount + 7) / 8 * 8
  }

  /** `amqp_pool_alloc` for a positive amount. */
  function Alloc(pool: Pool, amount: nat): (Pool, Region) {
    var size := RoundUp(amount);
    if size > pool.pageSize then
      (pool.(serials := pool.serials + 1), Region(Large(pool.serials), 0, size))
    else if pool.inPage && pool.nextPage > 0 && pool.allocUsed + size <= pool.pageSize then
      (pool.(allocUsed := pool.allocUsed + size), Region(Page(pool.nextPage - 1), pool.allocUsed, size))
    else
      (pool.(pages := if pool.nextPage >= pool.pages then pool.pages + 1 else pool.pages,
             nextPage := pool.nextPage + 1, inPage := true, allocUsed := size),
       Region(Page(pool.nextPage), 0, size))
  }

  /** Where a live region may lie. */
  predicate Placed(pool: Pool, r: Region) {
    match r.block
    case Page(i) =>
      i < pool.nextPage <= pool.pages && r.offset + r.len <= pool.pageSize &&
      (i + 1 == pool.nextPage ==> r.offset + r.len <= pool.allocUsed)
    case Large(serial) => serial < pool.serials && r.offset == 0
  }

  /** The regions handed out since the pool was last recycled lie inside its blocks, apart from each
      other. */
  ghost predicate PoolOk(pool: Pool, live: set<Region>) {
    pool.nextPage <= pool.pages && (pool.inPage <==> pool.nextPage > 0) && pool.allocUsed <= pool.pageSize &&
    (forall r :: r in live ==> r.len > 0 && Placed(pool, r)) &&
    (forall a, b :: a in live && b in live && a != b ==> Apart(a, b))
  }

  lemma {:induction false} AllocKeepsApart(pool: Pool, live: set<Region>, amount: nat)
    requires PoolOk(pool, live) && amount > 0
    ensures var (after, r) := Alloc(pool, amount);
            PoolOk(after, live + {r}) && r !in live && r.len >= amount && (forall a :: a in live ==> Apart(a, r))
  {
    var (after, r) := Alloc(pool, amount);
    forall a | a in live
      ensures Apart(a, r) && a != r && Placed(after, a)
    {
      assert Placed(pool, a);
    }
  }

  /** Serving one allocation after another. */
  function Serve(pool: Pool, amounts: seq<nat>): (Pool, seq<Region>)
    decreases |amounts|
  {
    if amounts == [] then (pool, [])
    else
      var (next, r) := Alloc(pool, amounts[0]);
      var (last, later) := Serve(next, amounts[1..]);
      (last, [r] + later)
  }

  /** Every request fits a page. */
  predicate Small(pageSize: nat, amounts: seq<nat>) {
    forall i :: 0 <= i < |amounts| ==> RoundUp(amounts[i]) <= pageSize
  }

  /** Serving only ever needs more pages when all there are have been used. */
  lemma {:induction false} ServeSame(p: Pool, q: Pool, amounts: seq<nat>)
    requires Small(p.pageSize, amounts) && p.nextPage <= p.pages
    requires q == p.(pages := q.pages) && q.pages >= Serve(p, amounts).0.pages
    ensures Serve(q, amounts) == (Serve(p, amounts).0.(pages := q.pages), Serve(p, amounts).1)
    ensures Serve(p, amounts).0.pages >= p.pages
    decreases |amounts|
  {
    if amounts != [] {
      var next := Alloc(p, amounts[0]).0;
      assert RoundUp(amounts[0]) <= p.pageSize;
      PagesGrow(next, amounts[1..]);
      ServeSame(next, Alloc(q, amounts[0]).0, amounts[1..]);
    }
  }

  lemma {:induction false} PagesGrow(p: Pool, amounts: seq<nat>)
    requires p.nextPage <= p.pages
    ensures Serve(p, amounts).0.pages >= p.pages
    decreases |amounts|
  {
    if amounts != [] {
      PagesGrow(Alloc(p, amounts[0]).0, amounts[1..]);
    }
  }

  /** What recycling is for: requests that fit a page and were served once from a new pool are served
      after recycling from the same places, and no page is added.  A new pool has pages of 4096 bytes
      unless another size is asked for. */
  lemma {:induction false} RecycledServesSame(pageSize: nat, amounts: seq<nat>)
    requires Small(if pageSize > 0 then pageSize else 4096, amounts)
    ensures var (used, regions) := Serve(InitPool(pageSize), amounts);
            Serve(Recycle(used), amounts) == (used, regions)
  {
    var new_ := InitPool(pageSize);
    var used := Serve(new_, amounts).0;
    ServeKeeps(new_, amounts);
    ServeSame(new_, Recycle(used), amounts);
    ServeKeeps(new_, amounts);
  }

  lemma {:induction false} ServeKeeps(p: Pool, amounts: seq<nat>)
    requires Small(p.pageSize, amounts)
    ensures var q := Serve(p, amounts).0; q.pageSize == p.pageSize && q.serials == p.serials
    decreases |amounts|
  {
    if amounts != [] {
      assert RoundUp(amounts[0]) <= p.pageSize;
      ServeKeeps(Alloc(p, amounts[0]).0, amounts[1..]);
    }
  }

  /** Requests are rounded up to multiples of eight and put one behind another while a page lasts. */
  lemma {:induction false} FirstRegions(a: nat, b: nat)
    requires 0 < a <= 4096 && 0 < b <= 4096
    ensures var regions, x, y := Serve(InitPool(0), [a, b]).1, (a + 7) / 8 * 8, (b + 7) / 8 * 8;
            regions == [Region(Page(0), 0, x), if x + y <= 4096 then Region(Page(0), x, y) else Region(Page(1), 0, y)]
  {
    var p := InitPool(0);
    assert [a, b][1..] == [b] && [b][1..] == [];
    var (next, r) := Alloc(p, a);
    var (last, s) := Alloc(next, b);
    assert Serve(next, [b]) == (last, [s] + []);
    assert Serve(p, [a, b]) == (last, [r] + ([s] + []));
  }

  /** What is larger than a page gets memory of its own. */
  lemma {:induction false} LargeRegion(a: nat)
    requires a > 4096
    ensures Serve(InitPool(0), [a]).1 == [Region(Large(0), 0, (a + 7) / 8 * 8)]
  {
    assert [a][1..] == [];
    assert Serve(Alloc(InitPool(0), a).0, []).1 == [];
  }

  // ----- The connection's pools -----

  /** A channel's pool with the bookkeeping of this model: how often it has been recycled and what it
      has handed out since. */
  datatype Account = Account(pool: Pool, epoch: nat, live: set<Region>)

  /** A decoded frame and the memory it points into, all of it from its channel's pool and taken in
      the given epoch of that pool. */
  datatype Held = Held(channel: nat, epoch: nat, regions: set<Region>)

  /** None of the frame's memory has been recycled. */
  predicate Backed(pools: map<nat, Account>, h: Held) {
    h.channel in pools && h.epoch == pools[h.channel].epoch && h.regions <= pools[h.channel].live
  }

  /** No region belongs to both. */
  predicate Disjoint(a: Held, b: Held) {
    a.channel == b.channel ==> a.regions !! b.regions
  }

  ghost predicate AccountsOk(pools: map<nat, Account>) {
    forall c :: c in pools ==> PoolOk(pools[c].pool, pools[c].live)
  }

  /** Memory was only handed out, never recycled. */
  predicate Grown(before: map<nat, Account>, after: map<nat, Account>) {
    forall c :: c in before ==> c in after && before[c].epoch == after[c].epoch && before[c].live <= after[c].live
  }

  function Renew(a: Account): Account {
    Account(Recycle(a.pool), a.epoch + 1, {})
  }

  predicate InQueue(queue: seq<Held>, channel: nat) {
    exists i :: 0 <= i < |queue| && queue[i].channel == channel
  }

  lemma {:induction false} RenewUnqueued(pools: map<nat, Account>, queue: seq<Held>, channel: nat)
    requires channel in pools && !InQueue(queue, channel)
    requires AccountsOk(pools) && forall i :: 0 <= i < |queue| ==> Backed(pools, queue[i])
    ensures var after := pools[channel := Renew(pools[channel])];
            AccountsOk(after) && forall i :: 0 <= i < |queue| ==> Backed(after, queue[i])
  {
    var after := pools[channel := Renew(pools[channel])];
    forall c | c in after
      ensures PoolOk(after[c].pool, after[c].live)
    {
      assert PoolOk(pools[c].pool, pools[c].live);
    }
  }

  class Buffers {
    const frameMax: nat
    var phase: Phase
    /** While a body is being received: its channel and its buffer. */
    var inbound: Held
    var queue: seq<Held>
    var pools: map<nat, Account>

    /** Queued frames and the frame being received use only memory that has not been recycled, and
        each its own. */
    ghost predicate Valid()
      reads this
    {
      AccountsOk(pools) &&
      (forall i :: 0 <= i < |queue| ==> Backed(pools, queue[i])) &&
      (phase == Body ==> Backed(pools, inbound)) &&
      (forall i, j :: 0 <= i < j < |queue| ==> Disjoint(queue[i], queue[j])) &&
      (phase == Body ==> OutsideQueue(inbound))
    }

    ghost predicate OutsideQueue(h: Held)
      reads this
    {
      forall i :: 0 <= i < |queue| ==> Disjoint(queue[i], h)
    }

    /** The frame shares no memory with a queued frame or the frame being received. */
    ghost predicate Alone(h: Held)
      reads this
    {
      OutsideQueue(h) && (phase == Body ==> Disjoint(inbound, h))
    }

    constructor (frameMax: nat)
      ensures Valid() && queue == [] && phase == Initial && this.frameMax == frameMax
    {
      this.frameMax := frameMax;
      phase, inbound, queue, pools := Initial, Held(0, 0, {}), [], map[];
    }

    /** `amqp_get_or_create_channel_pool` followed by `amqp_pool_alloc`: the memory given out touches
        nothing that is live, and everything live stays so. */
    method AllocOn(channel: nat, amount: nat) returns (r: Region)
      requires Valid() && amount > 0
      modifies this`pools
      ensures Valid() && Grown(old(pools), pools)
      ensures channel in pools && r in pools[channel].live && r.len >= amount
      ensures Alone(Held(channel, pools[channel].epoch, {r}))
      ensures channel in old(pools) ==>
                r !in old(pools[channel].live) && forall a :: a in old(pools[channel].live) ==> Apart(a, r)
    {
      if channel !in pools {
        pools := pools[channel := Account(InitPool(frameMax), 0, {})];
      }
      var account := pools[channel];
      AllocKeepsApart(account.pool, account.live, amount);
      var (after, region) := Alloc(account.pool, amount);
      hide PoolOk, Alloc, AccountsOk;
      NewIsAlone(channel, account, region);
      pools := pools[channel := Account(after, account.epoch, account.live + {region})];
      r := region;
    }

    lemma {:induction false} NewIsAlone(channel: nat, account: Account, r: Region)
      requires Valid() && channel in pools && pools[channel] == account && r !in account.live
      ensures Alone(Held(channel, account.epoch, {r}))
    {
      hide AccountsOk;
    }

    /** The INITIAL case with a protocol header: no memory is taken. */
    method FinishProtocolHeader()
      requires Valid() && phase == Initial
      modifies this`phase
      ensures Valid() && phase == Idle
    {
      hide PoolOk;
      phase := Idle;
    }

    /** Input that leaves IDLE and ends inside a frame header. */
    method StartHeader()
      requires Valid() && phase == Idle
      modifies this`phase
      ensures Valid() && phase == Header
    {
      hide PoolOk;
      phase := Header;
    }

    /** The HEADER case of `amqp_handle_input`, entered from any phase but BODY: the frame buffer comes
        from the channel's pool. */
    method StartBody(channel: nat, size: nat)
      requires Valid() && phase != Body && size > 0
      modifies this
      ensures Valid() && phase == Body && queue == old(queue) && inbound.channel == channel
      ensures Grown(old(pools), pools)
    {
      hide PoolOk;
      var r := AllocOn(channel, size);
      inbound := Held(channel, pools[channel].epoch, {r});
      phase := Body;
    }

    /** The BODY case: decoding takes more memory from the same pool, then the frame is returned. */
    method FinishBody(sizes: seq<nat>) returns (frame: Held)
      requires Valid() && phase == Body && forall i :: 0 <= i < |sizes| ==> sizes[i] > 0
      modifies this
      ensures Valid() && phase == Idle && queue == old(queue) && Grown(old(pools), pools)
      ensures Backed(pools, frame) && frame.channel == old(inbound.channel) && old(inbound.regions) <= frame.regions
      ensures Alone(frame)
    {
      hide PoolOk;
      frame := inbound;
      for i := 0 to |sizes|
        invariant Valid() && phase == Body && queue == old(queue) && inbound == old(inbound)
        invariant Backed(pools, frame) && frame.channel == inbound.channel && inbound.regions <= frame.regions
        invariant Grown(old(pools), pools) && OutsideQueue(frame)
      {
        var r := AllocOn(frame.channel, sizes[i]);
        frame := Held(frame.channel, frame.epoch, frame.regions + {r});
      }
      phase := Idle;
    }

    /** `amqp_create_link_for_frame`: the queue's own copy lives in the channel's pool, too. */
    method CreateLink(frame: Held, linkSize: nat, frameSize: nat) returns (link: Held)
      requires Valid() && Backed(pools, frame) && Alone(frame) && linkSize > 0 && frameSize > 0
      modifies this`pools
      ensures Valid() && Grown(old(pools), pools)
      ensures Backed(pools, link) && Alone(link) && link.channel == frame.channel && frame.regions <= link.regions
    {
      hide PoolOk;
      var a := AllocOn(frame.channel, linkSize);
      var b := AllocOn(frame.channel, frameSize);
      link := Held(frame.channel, frame.epoch, frame.regions + {a, b});
    }

    /** `amqp_queue_frame` */
    method QueueFrame(frame: Held, linkSize: nat, frameSize: nat)
      requires Valid() && Backed(pools, frame) && Alone(frame) && linkSize > 0 && frameSize > 0
      modifies this
      ensures Valid() && phase == old(phase) && |queue| == |old(queue)| + 1 && queue[..|old(queue)|] == old(queue)
      ensures queue[|old(queue)|].channel == frame.channel && frame.regions <= queue[|old(queue)|].regions
    {
      hide PoolOk;
      var link := CreateLink(frame, linkSize, frameSize);
      queue := queue + [link];
    }

    /** `amqp_put_back_frame` */
    method PutBackFrame(frame: Held, linkSize: nat, frameSize: nat)
      requires Valid() && Backed(pools, frame) && Alone(frame) && linkSize > 0 && frameSize > 0
      modifies this
      ensures Valid() && phase == old(phase) && |queue| == |old(queue)| + 1 && queue[1..] == old(queue)
      ensures queue[0].channel == frame.channel && frame.regions <= queue[0].regions
    {
      hide PoolOk;
      var link := CreateLink(frame, linkSize, frameSize);
      queue := [link] + queue;
    }

    /** A frame leaves the queue, with everything queued before it (`amqp_simple_wait_frame_on_channel`;
        for `i == 0` also `amqp_simple_wait_frame_noblock`). */
    method TakeFrame(i: nat) returns (frame: Held)
      requires Valid() && i < |queue|
      modifies this`queue
      ensures Valid() && frame == old(queue)[i] && queue == old(queue)[i + 1..] && Backed(pools, frame) && Alone(frame)
    {
      hide PoolOk;
      frame := queue[i];
      queue := queue[i + 1..];
    }

    /** `amqp_maybe_release_buffers_on_channel`: recycles the channel's pool exactly when the
        connection is idle and no queued frame uses the channel; no other pool is touched. */
    method MaybeReleaseOnChannel(channel: nat)
      requires Valid()
      modifies this`pools
      ensures Valid()
      ensures pools == if channel in old(pools) && phase == Idle && !InQueue(queue, channel)
                       then old(pools)[channel := Renew(old(pools)[channel])] else old(pools)
    {
      if phase != Idle {
        return;
      }
      var queuedLink := 0;
      while queuedLink < |queue|
        invariant queuedLink <= |queue|
        invariant forall j :: 0 <= j < queuedLink ==> queue[j].channel != channel
      {
        if queue[queuedLink].channel == channel {
          return;
        }
        queuedLink := queuedLink + 1;
      }
      hide PoolOk;
      if channel in pools {
        RenewUnqueued(pools, queue, channel);
        pools := pools[channel := Account(Recycle(pools[channel].pool), pools[channel].epoch + 1, {})];
      }
    }

    /** `amqp_release_buffers`, which aborts unless the connection is idle: every pool is recycled
        but those of channels with queued frames. */
    method ReleaseBuffers()
      requires Valid() && phase == Idle
      modifies this`pools
      ensures Valid() && pools.Keys == old(pools.Keys)
      ensures forall c :: c in pools ==>
                pools[c] == if InQueue(queue, c) then old(pools)[c] else Renew(old(pools)[c])
    {
      hide PoolOk, InQueue, Backed, AccountsOk;
      var todo := pools.Keys;
      while todo != {}
        invariant Valid() && pools.Keys == old(pools.Keys) && todo <= pools.Keys
        invariant forall c :: c in pools ==>
          pools[c] == if InQueue(queue, c) || c in todo then old(pools)[c] else Renew(old(pools)[c])
        decreases |todo|
      {
        var c :| c in todo;
        MaybeReleaseOnChannel(c);
        todo := todo - {c};
      }
    }

    /** `amqp_maybe_release_buffers` */
    method MaybeReleaseBuffers()
      requires Valid()
      modifies this`pools
      ensures Valid() && pools.Keys == old(pools.Keys)
      ensures forall c :: c in pools ==>
                pools[c] == if phase != Idle || InQueue(queue, c) then old(pools)[c] else Renew(old(pools)[c])
    {
      if phase == Idle {
        ReleaseBuffers();
      }
    }
  }

  // ----- Any run -----

  /** Whether the frame just completed is handed out for good, queued behind the others, or put back
      in front of them. */
  datatype Keep = Drop | Back | Front

  /** What a program may do with a connection.  An action that the connection's phase rules out has no
      effect. */
  datatype Action =
    | ReceiveProtocolHeader
    | ReceiveHeaderPart
    | ReceiveFrame(channel: nat, size: nat, decoded: seq<nat>, keep: Keep)
    | ReceivePart(channel: nat, size: nat)
    | CompletePart(decoded: seq<nat>, keep: Keep)
    | TakeAndPutBack(index: nat)
    | Take(index: nat)
    | Release(channel: nat)
    | ReleaseAll

  predicate Sensible(a: Action) {
    match a
    case ReceiveFrame(_, size, decoded, _) => size > 0 && forall i :: 0 <= i < |decoded| ==> decoded[i] > 0
    case ReceivePart(_, size) => size > 0
    case CompletePart(decoded, _) => forall i :: 0 <= i < |decoded| ==> decoded[i] > 0
    case _ => true
  }

  /** After any interleaving of input, queueing, put-back, waiting and release calls, every queued
      frame and the frame being received still own the memory they were given: it is apart from
      everything else their pools have handed out, the memory of the other frames included. */
  method RunActions(b: Buffers, actions: seq<Action>, linkSize: nat, frameSize: nat)
    requires b.Valid() && linkSize > 0 && frameSize > 0 && forall i :: 0 <= i < |actions| ==> Sensible(actions[i])
    modifies b
    ensures forall i :: 0 <= i < |b.queue| ==> Owns(b.pools, b.queue[i])
    ensures b.phase == Body ==> Owns(b.pools, b.inbound)
    ensures forall i, j :: 0 <= i < j < |b.queue| ==> Separate(b.queue[i], b.queue[j])
    ensures b.phase == Body ==> forall i :: 0 <= i < |b.queue| ==> Separate(b.queue[i], b.inbound)
  {
    for k := 0 to |actions|
      invariant b.Valid()
    {
      hide PoolOk, Grown, InQueue, AccountsOk, Backed, Disjoint;
      assert Sensible(actions[k]);
      match actions[k] {
        case ReceiveProtocolHeader =>
          if b.phase == Initial {
            b.FinishProtocolHeader();
          }
        case ReceiveHeaderPart =>
          if b.phase == Idle {
            b.StartHeader();
          }
        case ReceiveFrame(channel, size, decoded, keep) =>
          if b.phase != Body {
            b.StartBody(channel, size);
            FinishAndKeep(b, decoded, keep, linkSize, frameSize);
          }
        case ReceivePart(channel, size) =>
          if b.phase != Body {
            b.StartBody(channel, size);
          }
        case CompletePart(decoded, keep) =>
          if b.phase == Body {
            FinishAndKeep(b, decoded, keep, linkSize, frameSize);
          }
        case TakeAndPutBack(index) =>
          if index < |b.queue| {
            var frame := b.TakeFrame(index);
            b.PutBackFrame(frame, linkSize, frameSize);
          }
        case Take(index) =>
          if index < |b.queue| {
            var frame := b.TakeFrame(index);
          }
        case Release(channel) =>
          b.MaybeReleaseOnChannel(channel);
        case ReleaseAll =>
          b.MaybeReleaseBuffers();
      }
    }
    forall h | Backed(b.pools, h)
      ensures Owns(b.pools, h)
    {
      BackedOwns(b.pools, h);
    }
    forall g, h | Backed(b.pools, g) && Backed(b.pools, h) && Disjoint(g, h)
      ensures Separate(g, h)
    {
      DisjointSeparate(b.pools, g, h);
    }
  }

  /** The memory of the two frames does not overlap. */
  predicate Separate(g: Held, h: Held) {
    g.channel == h.channel ==> forall r, s :: r in g.regions && s in h.regions ==> Apart(r, s)
  }

  lemma {:induction false} DisjointSeparate(pools: map<nat, Account>, g: Held, h: Held)
    requires AccountsOk(pools) && Backed(pools, g) && Backed(pools, h) && Disjoint(g, h)
    ensures Separate(g, h)
  {
    assert PoolOk(pools[g.channel].pool, pools[g.channel].live);
    hide Apart, Placed;
  }

  /** The frame's memory belongs to the current epoch of its pool, lies inside the pool's blocks and
      overlaps nothing else that is in use. */
  predicate Owns(pools: map<nat, Account>, h: Held) {
    Backed(pools, h) &&
    forall r :: r in h.regions ==>
      Placed(pools[h.channel].pool, r) && forall a :: a in pools[h.channel].live && a != r ==> Apart(a, r)
  }

  lemma {:induction false} BackedOwns(pools: map<nat, Account>, h: Held)
    requires AccountsOk(pools) && Backed(pools, h)
    ensures Owns(pools, h)
  {
    assert PoolOk(pools[h.channel].pool, pools[h.channel].live);
  }

  method FinishAndKeep(b: Buffers, decoded: seq<nat>, keep: Keep, linkSize: nat, frameSize: nat)
    requires b.Valid() && b.phase == Body && linkSize > 0 && frameSize > 0
    requires forall i :: 0 <= i < |decoded| ==> decoded[i] > 0
    modifies b
    ensures b.Valid() && b.phase == Idle
  {
    hide PoolOk, Grown;
    var frame := b.FinishBody(decoded);
    match keep {
      case Drop =>
      case Back => b.QueueFrame(frame, linkSize, frameSize);
      case Front => b.PutBackFrame(frame, linkSize, frameSize);
    }
  }
}
