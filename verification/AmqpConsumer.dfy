/** Receiving on a channel: the frame queue of amqp_socket.c and the reassembly of a message by
    `amqp_read_message`. */
module AmqpConsumer {
  import opened Wrappers
  import opened AmqpData
  import opened AmqpFrames
  import opened AmqpProperties

  const CHANNEL_CLOSE_METHOD := 0x140028
  const CONNECTION_CLOSE_METHOD := 0xA0032
  const BASIC_DELIVER_METHOD := 0x3C003C

  /** What the connection yields over time: decoded frames, and waits that end in an error. */
  datatype Incoming = Got(frame: Frame) | WaitFailed(status: int)

  // ----- Waiting for a frame -----

  /** The position of the first queued frame of a channel, or the queue's length. */
  function FirstOn(queue: seq<Frame>, channel: nat): (i: nat)
    ensures i <= |queue|
    ensures i < |queue| ==> queue[i].channel == channel
    ensures forall j :: 0 <= j < i ==> queue[j].channel != channel
  {
    if queue == [] || queue[0].channel == channel then 0 else 1 + FirstOn(queue[1..], channel)
  }

  datatype Waited = Waited(status: int, frame: Option<Frame>, queue: seq<Frame>, incoming: seq<Incoming>)

  /** Receiving until a frame of the channel arrives; frames of other channels join the queue. */
  function Receive(queue: seq<Frame>, incoming: seq<Incoming>, channel: nat): Waited
    decreases |incoming|
  {
    if incoming == [] then Waited(STATUS_TIMEOUT, None, queue, [])
    else match incoming[0]
      case WaitFailed(e) => Waited(e, None, queue, incoming[1..])
      case Got(f) =>
        if f.HeartbeatFrame? then Receive(queue, incoming[1..], channel)
        else if f.channel == channel then Waited(STATUS_OK, Some(f), queue, incoming[1..])
        else Receive(queue + [f], incoming[1..], channel)
  }

  function Wait(queue: seq<Frame>, incoming: seq<Incoming>, channel: nat): Waited {
    var i := FirstOn(queue, channel);
    if i < |queue| then Waited(STATUS_OK, Some(queue[i]), queue[i + 1..], incoming)
    else Receive(queue, incoming, channel)
  }

  // ----- What a reader of one channel sees -----

  function Queued(queue: seq<Frame>, channel: nat): seq<Frame> {
    if queue == [] then []
    else (if queue[0].channel == channel then [queue[0]] else []) + Queued(queue[1..], channel)
  }

  function Arriving(incoming: seq<Incoming>, channel: nat): seq<Incoming> {
    if incoming == [] then []
    else
      var keep := incoming[0].WaitFailed? || (incoming[0].frame.channel == channel && !incoming[0].frame.HeartbeatFrame?);
      (if keep then [incoming[0]] else []) + Arriving(incoming[1..], channel)
  }

  function Wrap(frames: seq<Frame>): (w: seq<Incoming>)
    ensures |w| == |frames|
  {
    seq(|frames|, i requires 0 <= i < |frames| => Got(frames[i]))
  }

  function Stream(queue: seq<Frame>, incoming: seq<Incoming>, channel: nat): seq<Incoming> {
    Wrap(Queued(queue, channel)) + Arriving(incoming, channel)
  }

  lemma {:induction false} QueuedConcat(a: seq<Frame>, b: seq<Frame>, channel: nat)
    ensures Queued(a + b, channel) == Queued(a, channel) + Queued(b, channel)
    decreases |a|
  {
    if a == [] {
      assert a + b == b;
    } else {
      assert (a + b)[1..] == a[1..] + b;
      QueuedConcat(a[1..], b, channel);
      var head := if a[0].channel == channel then [a[0]] else [];
      assert head + (Queued(a[1..], channel) + Queued(b, channel)) == head + Queued(a[1..], channel) + Queued(b, channel);
    }
  }

  lemma {:induction false} NoneQueuedIff(queue: seq<Frame>, channel: nat)
    ensures Queued(queue, channel) == [] <==> forall j :: 0 <= j < |queue| ==> queue[j].channel != channel
  {
    if queue != [] {
      NoneQueuedIff(queue[1..], channel);
    }
  }

  /** Receiving hands out the channel's stream in order. */
  lemma {:induction false} ReceiveDelivers(queue: seq<Frame>, incoming: seq<Incoming>, channel: nat)
    requires Queued(queue, channel) == []
    ensures var r, s := Receive(queue, incoming, channel), Arriving(incoming, channel);
            Queued(r.queue, channel) == [] &&
            if s == [] then r == Waited(STATUS_TIMEOUT, None, r.queue, [])
            else Arriving(r.incoming, channel) == s[1..] && |r.queue| + |r.incoming| < |queue| + |incoming| &&
                 match s[0]
                 case Got(f) => r.status == STATUS_OK && r.frame == Some(f)
                 case WaitFailed(e) => r.status == e && r.frame == None
    decreases |incoming|
  {
    if incoming != [] {
      ArrivingNext(incoming, channel);
      hide Arriving, Queued;
      if incoming[0].Got? {
        var f := incoming[0].frame;
        if f.HeartbeatFrame? {
          ReceiveDelivers(queue, incoming[1..], channel);
        } else if f.channel != channel {
          NoneQueuedIff(queue, channel);
          NoneQueuedIff(queue + [f], channel);
          ReceiveDelivers(queue + [f], incoming[1..], channel);
        }
      }
    }
  }

  lemma {:induction false} ArrivingNext(incoming: seq<Incoming>, channel: nat)
    requires incoming != []
    ensures var next, s, later := incoming[0], Arriving(incoming, channel), Arriving(incoming[1..], channel);
            if next.WaitFailed? || (next.frame.channel == channel && !next.frame.HeartbeatFrame?)
            then s != [] && s[0] == next && s[1..] == later
            else s == later
  {
  }

  /** The queue around the frame that a wait takes out of it. */
  lemma {:induction false} QueueSplits(queue: seq<Frame>, i: nat, channel: nat)
    requires i < |queue|
    ensures Queued(queue, channel) ==
            Queued(queue[..i], channel) + (if queue[i].channel == channel then [queue[i]] else []) + Queued(queue[i + 1..], channel)
  {
    QueuedConcat(queue[..i], queue[i..], channel);
    assert queue == queue[..i] + queue[i..];
    assert queue[i..][1..] == queue[i + 1..];
  }

  /** A wait on a channel returns the next element of the channel's stream and removes just it. */
  lemma {:induction false} WaitDelivers(queue: seq<Frame>, incoming: seq<Incoming>, channel: nat)
    ensures var r, s := Wait(queue, incoming, channel), Stream(queue, incoming, channel);
            if s == [] then r.status == STATUS_TIMEOUT && r.frame == None && Stream(r.queue, r.incoming, channel) == []
            else Stream(r.queue, r.incoming, channel) == s[1..] && |r.queue| + |r.incoming| < |queue| + |incoming| &&
                 match s[0]
                 case Got(f) => r.status == STATUS_OK && r.frame == Some(f)
                 case WaitFailed(e) => r.status == e && r.frame == None
  {
    var i := FirstOn(queue, channel);
    if i < |queue| {
      hide Queued, Arriving, Receive, FirstOn, Stream;
      QueueDelivers(queue, incoming, i, channel);
    } else {
      NoneQueuedIff(queue, channel);
      assert Arriving([], channel) == [];
      hide Queued, Arriving, Receive;
      ReceiveDelivers(queue, incoming, channel);
    }
  }

  lemma {:induction false} QueueDelivers(queue: seq<Frame>, incoming: seq<Incoming>, i: nat, channel: nat)
    requires i < |queue| && queue[i].channel == channel && forall j :: 0 <= j < i ==> queue[j].channel != channel
    ensures Stream(queue, incoming, channel) == [Got(queue[i])] + Stream(queue[i + 1..], incoming, channel)
  {
    NoneQueuedIff(queue[..i], channel);
    QueueSplits(queue, i, channel);
    hide Queued, Arriving;
    var later := Queued(queue[i + 1..], channel);
    assert Queued(queue, channel) == [queue[i]] + later;
    assert Wrap([queue[i]] + later) == [Got(queue[i])] + Wrap(later);
  }

  // ----- Frames of other channels -----

  function Coming(incoming: seq<Incoming>, channel: nat): seq<Frame> {
    if incoming == [] then []
    else
      var keep := incoming[0].Got? && incoming[0].frame.channel == channel && !incoming[0].frame.HeartbeatFrame?;
      (if keep then [incoming[0].frame] else []) + Coming(incoming[1..], channel)
  }

  /** The frames of one channel still to be seen. */
  function FramesFor(queue: seq<Frame>, incoming: seq<Incoming>, channel: nat): seq<Frame> {
    Queued(queue, channel) + Coming(incoming, channel)
  }

  lemma {:induction false} MoveToQueue(queue: seq<Frame>, f: Frame, rest: seq<Incoming>, other: nat)
    requires !f.HeartbeatFrame?
    ensures FramesFor(queue + [f], rest, other) == FramesFor(queue, [Got(f)] + rest, other)
  {
    var head := if f.channel == other then [f] else [];
    assert Queued([f], other) == head;
    assert ([Got(f)] + rest)[1..] == rest;
    assert Coming([Got(f)] + rest, other) == head + Coming(rest, other);
    hide Queued, Coming;
    QueuedConcat(queue, [f], other);
    assert Queued(queue, other) + head + Coming(rest, other) == Queued(queue, other) + (head + Coming(rest, other));
  }

  /** What is no frame for a channel takes none from it. */
  lemma {:induction false} ComingNext(queue: seq<Frame>, incoming: seq<Incoming>, other: nat)
    requires incoming != []
    requires incoming[0].Got? ==> incoming[0].frame.HeartbeatFrame? || incoming[0].frame.channel != other
    ensures FramesFor(queue, incoming, other) == FramesFor(queue, incoming[1..], other)
  {
    assert Coming(incoming, other) == [] + Coming(incoming[1..], other);
    hide Queued;
  }

  lemma {:induction false} ReceiveKeepsOthers(queue: seq<Frame>, incoming: seq<Incoming>, channel: nat, other: nat)
    requires other != channel
    ensures var r := Receive(queue, incoming, channel);
            FramesFor(r.queue, r.incoming, other) == FramesFor(queue, incoming, other)
    decreases |incoming|
  {
    hide FramesFor;
    if incoming != [] {
      var next, rest := incoming[0], incoming[1..];
      if next.WaitFailed? || next.frame.HeartbeatFrame? || next.frame.channel == channel {
        ComingNext(queue, incoming, other);
        if next.Got? && next.frame.HeartbeatFrame? {
          ReceiveKeepsOthers(queue, rest, channel, other);
        }
      } else {
        ReceiveKeepsOthers(queue + [next.frame], rest, channel, other);
        MoveToQueue(queue, next.frame, rest, other);
        assert incoming == [Got(next.frame)] + rest;
      }
    }
  }

  /** Taking a frame out of the queue also cuts off everything queued before it.  Another channel
      keeps all its frames exactly when none of them is queued ahead of the frame taken. */
  lemma {:induction false} WaitKeepsOthersIff(queue: seq<Frame>, incoming: seq<Incoming>, channel: nat, other: nat)
    requires other != channel
    ensures var r, i := Wait(queue, incoming, channel), FirstOn(queue, channel);
            FramesFor(r.queue, r.incoming, other) == FramesFor(queue, incoming, other) <==>
            (i == |queue| || forall j :: 0 <= j < i ==> queue[j].channel != other)
  {
    var i := FirstOn(queue, channel);
    if i == |queue| {
      hide Queued, FramesFor, Receive, FirstOn;
      ReceiveKeepsOthers(queue, incoming, channel, other);
    } else {
      hide Queued, FramesFor, Receive, FirstOn;
      CutKeepsIff(queue, incoming, i, other);
    }
  }

  lemma {:induction false} CutKeepsIff(queue: seq<Frame>, incoming: seq<Incoming>, i: nat, other: nat)
    requires i < |queue| && queue[i].channel != other
    ensures FramesFor(queue[i + 1..], incoming, other) == FramesFor(queue, incoming, other) <==>
            forall j :: 0 <= j < i ==> queue[j].channel != other
  {
    var lost, kept := Queued(queue[..i], other), Queued(queue[i + 1..], other);
    NoneQueuedIff(queue[..i], other);
    QueueSplits(queue, i, other);
    hide Queued, Coming;
    assert Queued(queue, other) == lost + kept;
    assert |FramesFor(queue, incoming, other)| == |lost| + |FramesFor(queue[i + 1..], incoming, other)|;
    assert forall j :: 0 <= j < i ==> queue[..i][j] == queue[j];
    if lost == [] {
      assert lost + kept == kept;
    }
  }

  /** The smallest loss: waiting on channel 3 queues a frame of channel 2 and then one of channel 1, and
      waiting on channel 1 next drops the first of them. */
  lemma WaitLosesFrame(a: Bytes, b: Bytes, c: Bytes)
    ensures var lost, wanted, first := BodyFrame(2, a), BodyFrame(1, b), BodyFrame(3, c);
            var r := Wait([], [Got(lost), Got(wanted), Got(first)], 3);
            var s := Wait(r.queue, r.incoming, 1);
            r.frame == Some(first) && r.queue == [lost, wanted] && s.frame == Some(wanted) &&
            FramesFor(r.queue, r.incoming, 2) == [lost] && FramesFor(s.queue, s.incoming, 2) == []
  {
    var lost, wanted, first := BodyFrame(2, a), BodyFrame(1, b), BodyFrame(3, c);
    ReceiveQueues(lost, wanted, first, 3);
    assert FirstOn([], 3) == 0;
    hide Receive;
    assert [lost, wanted][1..] == [wanted] && [lost, wanted][2..] == [] && [wanted][1..] == [];
    assert FirstOn([wanted], 1) == 0 && FirstOn([lost, wanted], 1) == 1;
    assert Queued([wanted], 2) == [] && Queued([lost, wanted], 2) == [lost] + Queued([wanted], 2);
  }

  /** Two frames of other channels join the queue in order. */
  lemma {:induction false} ReceiveQueues(a: Frame, b: Frame, c: Frame, channel: nat)
    requires !a.HeartbeatFrame? && !b.HeartbeatFrame? && !c.HeartbeatFrame?
    requires a.channel != channel && b.channel != channel && c.channel == channel
    ensures Receive([], [Got(a), Got(b), Got(c)], channel) == Waited(STATUS_OK, Some(c), [a, b], [])
  {
    assert [Got(a), Got(b), Got(c)][1..] == [Got(b), Got(c)] && [Got(b), Got(c)][1..] == [Got(c)] && [Got(c)][1..] == [];
    assert [] + [a] == [a] && [a] + [b] == [a, b];
    assert Receive([a, b], [Got(c)], channel) == Waited(STATUS_OK, Some(c), [a, b], []);
    assert Receive([a], [Got(b), Got(c)], channel) == Receive([a, b], [Got(c)], channel);
    assert Receive([], [Got(a), Got(b), Got(c)], channel) == Receive([a], [Got(b), Got(c)], channel);
  }

  // ----- Reassembly -----

  datatype Reply = Normal | ServerException(closing: Frame) | LibraryException(status: int)

  predicate Closes(f: Frame) {
    f.MethodFrame? && (f.id == CHANNEL_CLOSE_METHOD || f.id == CONNECTION_CLOSE_METHOD)
  }

  lemma NoBodyCloses(f: Frame)
    requires f.BodyFrame?
    ensures !Closes(f)
  {
  }

  datatype Gathered = Gathered(reply: Reply, body: Bytes, used: nat)

  /** Reading body frames until `remaining` bytes have come. */
  function Gather(stream: seq<Incoming>, remaining: nat): (g: Gathered)
    ensures g.used <= |stream|
    decreases |stream|
  {
    if remaining == 0 then Gathered(Normal, [], 0)
    else if stream == [] then Gathered(LibraryException(STATUS_TIMEOUT), [], 0)
    else match stream[0]
      case WaitFailed(e) => Gathered(LibraryException(e), [], 1)
      case Got(f) =>
        if !f.BodyFrame? then
          Gathered(if Closes(f) then ServerException(f) else LibraryException(STATUS_BAD_AMQP_DATA), [], 1)
        else if |f.fragment| > remaining then Gathered(LibraryException(STATUS_BAD_AMQP_DATA), [], 1)
        else
          var later := Gather(stream[1..], remaining - |f.fragment|);
          Gathered(later.reply, f.fragment + later.body, later.used + 1)
  }

  /** The stream is body frames only. */
  predicate AllBodies(stream: seq<Incoming>) {
    forall i :: 0 <= i < |stream| ==> stream[i].Got? && stream[i].frame.BodyFrame?
  }

  function Payload(stream: seq<Incoming>): Bytes {
    if stream == [] then []
    else (if stream[0].Got? && stream[0].frame.BodyFrame? then stream[0].frame.fragment else []) + Payload(stream[1..])
  }

  /** The first `k` elements are body frames that carry exactly `size` bytes. */
  predicate Completes(stream: seq<Incoming>, k: nat, size: nat) {
    k <= |stream| && AllBodies(stream[..k]) && |Payload(stream[..k])| == size
  }

  lemma {:induction false} TailCompletes(stream: seq<Incoming>, k: nat, size: nat)
    requires 0 < k <= |stream| && stream[0].Got? && stream[0].frame.BodyFrame? && |stream[0].frame.fragment| <= size
    ensures Completes(stream, k, size) <==> Completes(stream[1..], k - 1, size - |stream[0].frame.fragment|)
    ensures Payload(stream[..k]) == stream[0].frame.fragment + Payload(stream[1..][..k - 1])
  {
    assert stream[..k][1..] == stream[1..][..k - 1];
    var head, tail := stream[..k], stream[1..][..k - 1];
    BodiesTail(stream, k);
  }

  lemma {:induction false} BodiesTail(stream: seq<Incoming>, k: nat)
    requires 0 < k <= |stream| && stream[0].Got? && stream[0].frame.BodyFrame?
    ensures AllBodies(stream[..k]) <==> AllBodies(stream[1..][..k - 1])
  {
    var head, tail := stream[..k], stream[1..][..k - 1];
    if AllBodies(head) {
      forall i | 0 <= i < |tail|
        ensures tail[i].Got? && tail[i].frame.BodyFrame?
      {
        assert tail[i] == head[i + 1];
      }
    }
    if AllBodies(tail) {
      forall i | 0 <= i < |head|
        ensures head[i].Got? && head[i].frame.BodyFrame?
      {
        assert i > 0 ==> head[i] == tail[i - 1];
      }
    }
  }

  /** A successful reading uses the shortest prefix that carries the announced number of bytes, and
      returns its concatenation. */
  lemma {:induction false} GatherSound(stream: seq<Incoming>, size: nat)
    requires Gather(stream, size).reply == Normal
    ensures var g := Gather(stream, size);
            Completes(stream, g.used, size) && g.body == Payload(stream[..g.used]) &&
            forall k :: 0 <= k < g.used ==> !Completes(stream, k, size)
    decreases |stream|
  {
    var g := Gather(stream, size);
    if size == 0 {
      assert stream[..0] == [];
    } else {
      var rest := size - |stream[0].frame.fragment|;
      GatherSound(stream[1..], rest);
      TailCompletes(stream, g.used, size);
      forall k | 0 <= k < g.used
        ensures !Completes(stream, k, size)
      {
        if k == 0 {
          assert stream[..0] == [];
        } else {
          TailCompletes(stream, k, size);
        }
      }
    }
  }

  lemma {:induction false} GatherComplete(stream: seq<Incoming>, size: nat, k: nat)
    requires Completes(stream, k, size)
    ensures Gather(stream, size).reply == Normal
    decreases |stream|
  {
    assert stream[..0] == [];
    if size > 0 {
      assert stream[..k][0] == stream[0];
      assert Payload(stream[..k]) == stream[0].frame.fragment + Payload(stream[..k][1..]);
      TailCompletes(stream, k, size);
      GatherComplete(stream[1..], size - |stream[0].frame.fragment|, k - 1);
    }
  }

  /** Reassembly succeeds exactly when some prefix of body frames carries the announced size. */
  lemma ReassemblyExact(stream: seq<Incoming>, size: nat)
    ensures Gather(stream, size).reply == Normal <==> exists k :: Completes(stream, k, size)
    ensures Gather(stream, size).reply == Normal ==>
              var g := Gather(stream, size);
              |g.body| == size && g.body == Payload(stream[..g.used]) &&
              (forall k :: Completes(stream, k, size) ==> g.used <= k)
  {
    if Gather(stream, size).reply == Normal {
      GatherSound(stream, size);
      assert Completes(stream, Gather(stream, size).used, size);
    }
    if exists k :: Completes(stream, k, size) {
      var k :| Completes(stream, k, size);
      GatherComplete(stream, size, k);
    }
  }

  /** A fragment that carries more than what is missing is refused. */
  lemma {:induction false} OvershootRefused(stream: seq<Incoming>, size: nat, k: nat)
    requires k <= |stream| && AllBodies(stream[..k]) && |Payload(stream[..k])| > size
    requires forall j :: 0 <= j < k ==> |Payload(stream[..j])| != size
    ensures Gather(stream, size).reply == LibraryException(-2)
    decreases |stream|
  {
    assert k > 0 by { assert stream[..0] == []; }
    assert |Payload(stream[..0])| == 0;
    assert stream[..k][0] == stream[0];
    var n := |stream[0].frame.fragment|;
    if n <= size {
      TailCompletes(stream, k, size);
      BodiesTail(stream, k);
      forall j | 0 <= j < k - 1
        ensures |Payload(stream[1..][..j])| != size - n
      {
        TailCompletes(stream, j + 1, size);
      }
      OvershootRefused(stream[1..], size - n, k - 1);
    }
  }

  /** channel.close is method 40 of class 20, connection.close method 50 of class 10. */
  lemma {:induction false} ClosesIff(f: Frame)
    ensures Closes(f) <==> f.MethodFrame? && (f.id == 0x1_0000 * 20 + 40 || f.id == 0x1_0000 * 10 + 50)
  {
  }

  /** Behind `k` body frames that carry less than `size` bytes comes the frame `f`. */
  predicate InterruptedBy(stream: seq<Incoming>, k: nat, size: nat, f: Frame) {
    k < |stream| && AllBodies(stream[..k]) && |Payload(stream[..k])| < size && stream[k] == Got(f) && !f.BodyFrame?
  }

  lemma {:induction false} TailInterrupted(stream: seq<Incoming>, k: nat, size: nat, f: Frame)
    requires 0 < k && stream != [] && stream[0].Got? && stream[0].frame.BodyFrame? && |stream[0].frame.fragment| <= size
    ensures InterruptedBy(stream, k, size, f) <==>
            InterruptedBy(stream[1..], k - 1, size - |stream[0].frame.fragment|, f)
  {
    if k < |stream| {
      TailCompletes(stream, k, size);
      BodiesTail(stream, k);
    }
    hide AllBodies, Payload, Completes;
  }

  /** What interrupts a reading decides its reply, and is the last frame used. */
  lemma {:induction false} InterruptedReply(stream: seq<Incoming>, k: nat, size: nat, f: Frame)
    requires InterruptedBy(stream, k, size, f)
    ensures Gather(stream, size).used == k + 1
    ensures Gather(stream, size).reply ==
            if Closes(f) then ServerException(f) else LibraryException(STATUS_BAD_AMQP_DATA)
    decreases |stream|
  {
    assert stream[..0] == [];
    if k > 0 {
      assert stream[..k][0] == stream[0];
      assert Payload(stream[..k]) == stream[0].frame.fragment + Payload(stream[..k][1..]);
      TailInterrupted(stream, k, size, f);
      hide Closes;
      InterruptedReply(stream[1..], k - 1, size - |stream[0].frame.fragment|, f);
    }
  }

  /** A server exception comes from a closing method in place of a fragment, and from nothing else. */
  lemma {:induction false} ServerExceptionFound(stream: seq<Incoming>, size: nat, f: Frame) returns (k: nat)
    requires Gather(stream, size).reply == ServerException(f)
    ensures InterruptedBy(stream, k, size, f) && Closes(f)
    decreases |stream|
  {
    assert stream[..0] == [];
    if stream[0].frame.BodyFrame? {
      var n := |stream[0].frame.fragment|;
      k := ServerExceptionFound(stream[1..], size - n, f);
      TailInterrupted(stream, k + 1, size, f);
      k := k + 1;
    } else {
      k := 0;
    }
  }

  /** Gathering stands at element `used` with the bytes `done` copied. */
  predicate GatherAt(stream: seq<Incoming>, size: nat, used: nat, done: Bytes) {
    used <= |stream| && |done| <= size &&
    var later := Gather(stream[used..], size - |done|);
    Gather(stream, size) == Gathered(later.reply, done + later.body, used + later.used)
  }

  lemma {:induction false} GatherNext(stream: seq<Incoming>, size: nat, used: nat, done: Bytes)
    requires GatherAt(stream, size, used, done) && |done| < size
    ensures if used == |stream| then Gather(stream, size) == Gathered(LibraryException(STATUS_TIMEOUT), done, used)
            else match stream[used]
              case WaitFailed(e) => Gather(stream, size) == Gathered(LibraryException(e), done, used + 1)
              case Got(f) =>
                if f.BodyFrame? && |done| + |f.fragment| <= size then GatherAt(stream, size, used + 1, done + f.fragment)
                else Gather(stream, size) == Gathered(
                  if Closes(f) then ServerException(f) else LibraryException(STATUS_BAD_AMQP_DATA), done, used + 1)
  {
    var rest := stream[used..];
    assert done + [] == done;
    if used < |stream| && stream[used].Got? && stream[used].frame.BodyFrame? {
      var f := stream[used].frame;
      assert rest[1..] == stream[used + 1..];
      if |done| + |f.fragment| <= size {
        var later := Gather(stream[used + 1..], size - |done + f.fragment|);
        assert done + (f.fragment + later.body) == done + f.fragment + later.body;
      }
    }
  }

  lemma {:induction false} StartGather(stream: seq<Incoming>, size: nat)
    ensures GatherAt(stream, size, 0, [])
  {
    assert stream[0..] == stream;
    assert [] + Gather(stream, size).body == Gather(stream, size).body;
  }

  lemma {:induction false} EndGather(stream: seq<Incoming>, size: nat, used: nat, done: Bytes)
    requires GatherAt(stream, size, used, done) && |done| == size
    ensures Gather(stream, size) == Gathered(Normal, done, used)
  {
    assert done + [] == done;
  }

  datatype Read = Read(reply: Reply, props: Fields, body: Bytes, used: nat)

  /** `amqp_read_message` on a channel's stream.  A frame that cannot open a message stays; a header
      whose properties cannot be cloned is gone. */
  function ReadStream(stream: seq<Incoming>): (r: Read)
    ensures r.used <= |stream|
  {
    if stream == [] then Read(LibraryException(STATUS_TIMEOUT), NO_FIELDS, [], 0)
    else match stream[0]
      case WaitFailed(e) => Read(LibraryException(e), NO_FIELDS, [], 1)
      case Got(f) =>
        if f.HeaderFrame? then
          (match CloneFields(f.props)
           case Err(e) => Read(LibraryException(e), NO_FIELDS, [], 1)
           case Ok(props) =>
             var g := Gather(stream[1..], f.bodySize);
             Read(g.reply, props, g.body, 1 + g.used))
        else if Closes(f) then Read(ServerException(f), NO_FIELDS, [], 1)
        else Read(LibraryException(STATUS_UNEXPECTED_STATE), NO_FIELDS, [], 0)
  }

  predicate Opens(stream: seq<Incoming>) {
    stream != [] && stream[0].Got? && stream[0].frame.HeaderFrame?
  }

  /** A message is read exactly when a content header comes first, no key in its headers is empty, and
      some run of body frames after it carries just the announced size.  The shortest such run is used,
      and nothing behind it. */
  lemma {:induction false} ReadExact(stream: seq<Incoming>)
    ensures ReadStream(stream).reply == Normal <==>
            Opens(stream) && Cloneable(stream[0].frame.props) &&
            exists k :: Completes(stream[1..], k, stream[0].frame.bodySize)
    ensures ReadStream(stream).reply == Normal ==>
              var r, h, bodies := ReadStream(stream), stream[0].frame, stream[1..];
              r.used > 0 && r.props == h.props && Completes(bodies, r.used - 1, h.bodySize) &&
              r.body == Payload(bodies[..r.used - 1]) && forall k :: Completes(bodies, k, h.bodySize) ==> r.used - 1 <= k
  {
    if Opens(stream) {
      var size := stream[0].frame.bodySize;
      CloneFieldsIff(stream[0].frame.props);
      ReassemblyExact(stream[1..], size);
      if Gather(stream[1..], size).reply == Normal {
        GatherSound(stream[1..], size);
      }
      hide Gather, Completes, Payload, CloneFields, Cloneable;
    }
  }

  /** A header that opens a message with an uncloneable property list is consumed and refused, whatever
      follows it. */
  lemma {:induction false} UncloneableRefused(stream: seq<Incoming>)
    requires Opens(stream) && !Cloneable(stream[0].frame.props)
    ensures ReadStream(stream) == Read(LibraryException(-10), NO_FIELDS, [], 1)
  {
    CloneFieldsIff(stream[0].frame.props);
    hide CloneFields, Cloneable;
  }

  /** Where a closing method ends a read: as the first frame, or in place of a fragment that is still
      missing. */
  ghost predicate ClosedBy(stream: seq<Incoming>, f: Frame, used: nat) {
    (stream != [] && stream[0] == Got(f) && used == 1) ||
    (Opens(stream) && Cloneable(stream[0].frame.props) && used >= 2 &&
     InterruptedBy(stream[1..], used - 2, stream[0].frame.bodySize, f))
  }

  /** A read ends in a server exception exactly when a close method of the channel (class 20, method 40)
      or of the connection (class 10, method 50) comes at one of these places, and uses it up. */
  lemma {:induction false} ServerExceptionIff(stream: seq<Incoming>, f: Frame)
    ensures ReadStream(stream).reply == ServerException(f) <==>
            f.MethodFrame? && (f.id == 0x14_0028 || f.id == 0x0A_0032) && exists used :: ClosedBy(stream, f, used)
    ensures ReadStream(stream).reply == ServerException(f) ==> ClosedBy(stream, f, ReadStream(stream).used)
  {
    ClosesIff(f);
    if Opens(stream) {
      OpenedClosed(stream, f);
    } else {
      UnopenedClosed(stream, f);
    }
  }

  lemma {:induction false} OpenedClosed(stream: seq<Incoming>, f: Frame)
    requires Opens(stream)
    ensures ReadStream(stream).reply == ServerException(f) <==> Closes(f) && exists used :: ClosedBy(stream, f, used)
    ensures ReadStream(stream).reply == ServerException(f) ==> ClosedBy(stream, f, ReadStream(stream).used)
  {
    var h, bodies := stream[0].frame, stream[1..];
    CloneFieldsIff(h.props);
    hide CloneFields, Cloneable;
    if Cloneable(h.props) {
      if Gather(bodies, h.bodySize).reply == ServerException(f) {
        var k := ServerExceptionFound(bodies, h.bodySize, f);
        hide Gather;
        InterruptedReply(bodies, k, h.bodySize, f);
        assert ClosedBy(stream, f, k + 2);
      }
      if Closes(f) {
        forall used: nat | ClosedBy(stream, f, used)
          ensures Gather(bodies, h.bodySize).reply == ServerException(f)
        {
          InterruptedReply(bodies, used - 2, h.bodySize, f);
        }
      }
    }
  }

  lemma {:induction false} UnopenedClosed(stream: seq<Incoming>, f: Frame)
    requires !Opens(stream)
    ensures ReadStream(stream).reply == ServerException(f) <==> Closes(f) && exists used :: ClosedBy(stream, f, used)
    ensures ReadStream(stream).reply == ServerException(f) ==> ClosedBy(stream, f, ReadStream(stream).used)
  {
    hide Closes;
    if stream != [] && stream[0] == Got(f) {
      assert ClosedBy(stream, f, 1);
    }
  }

  /** Any other frame in place of the header is left where it is, and every read says so again. */
  lemma {:induction false} UnexpectedStays(stream: seq<Incoming>, f: Frame)
    requires stream != [] && stream[0] == Got(f) && !f.HeaderFrame?
    requires !(f.MethodFrame? && (f.id == 0x14_0028 || f.id == 0x0A_0032))
    ensures ReadStream(stream) == Read(LibraryException(-16), NO_FIELDS, [], 0)
  {
    ClosesIff(f);
  }

  /** Any other frame in place of a missing fragment is bad data. */
  lemma {:induction false} UnexpectedInBody(stream: seq<Incoming>, k: nat, f: Frame)
    requires Opens(stream) && Cloneable(stream[0].frame.props)
    requires InterruptedBy(stream[1..], k, stream[0].frame.bodySize, f)
    requires !(f.MethodFrame? && (f.id == 0x14_0028 || f.id == 0x0A_0032))
    ensures ReadStream(stream).reply == LibraryException(-2) && ReadStream(stream).used == k + 2
  {
    ClosesIff(f);
    CloneFieldsIff(stream[0].frame.props);
    hide CloneFields, Cloneable, Closes, Gather;
    InterruptedReply(stream[1..], k, stream[0].frame.bodySize, f);
  }

  /** basic.deliver, method 60 of class 60. */
  predicate IsDelivery(f: Frame)
    ensures IsDelivery(f) <==> f.MethodFrame? && f.id == 0x1_0000 * 60 + 60
  {
    f.MethodFrame? && f.id == BASIC_DELIVER_METHOD
  }

  /** The receiving side of a connection, seen in frames. */
  class Inbox {
    var queue: seq<Frame>
    var incoming: seq<Incoming>

    ghost function Frames(channel: nat): seq<Incoming>
      reads this
    {
      Stream(queue, incoming, channel)
    }

    constructor (incoming: seq<Incoming>)
      ensures queue == [] && this.incoming == incoming
    {
      queue, this.incoming := [], incoming;
    }

    /** `amqp_queue_frame` */
    method QueueFrame(frame: Frame)
      modifies this`queue
      ensures queue == old(queue) + [frame]
    {
      queue := queue + [frame];
    }

    /** `amqp_put_back_frame`: the frame becomes the next one of its channel again. */
    method PutBackFrame(frame: Frame)
      modifies this`queue
      ensures queue == [frame] + old(queue)
      ensures Frames(frame.channel) == [Got(frame)] + old(Frames(frame.channel))
      ensures forall c :: c != frame.channel ==> Frames(c) == old(Frames(c))
      ensures FrontOf(frame, queue, incoming, old(queue), incoming)
    {
      PushFront(frame, queue, incoming);
      queue := [frame] + queue;
      assert queue[1..] == old(queue);
    }

    /** `wait_frame_inner`: the next frame that is not a heartbeat. */
    method WaitFrameInner(ghost channel: nat) returns (status: int, frame: Option<Frame>)
      modifies this`incoming
      ensures |incoming| < |old(incoming)| || (status == STATUS_TIMEOUT && frame == None)
      ensures frame.Some? ==> status == STATUS_OK && !frame.value.HeartbeatFrame?
      ensures forall c :: Coming(old(incoming), c) ==
                (if frame.Some? && frame.value.channel == c then [frame.value] else []) + Coming(incoming, c)
      ensures Receive(queue, old(incoming), channel) ==
              if frame.None? then Waited(status, None, queue, incoming)
              else if frame.value.channel == channel then Waited(STATUS_OK, frame, queue, incoming)
              else Receive(queue + [frame.value], incoming, channel)
    {
      while incoming != []
        invariant |incoming| <= |old(incoming)|
        invariant Receive(queue, old(incoming), channel) == Receive(queue, incoming, channel)
        invariant forall c :: Coming(old(incoming), c) == Coming(incoming, c)
        decreases |incoming|
      {
        var next := incoming[0];
        incoming := incoming[1..];
        match next {
          case WaitFailed(e) =>
            return e, None;
          case Got(f) =>
            if !f.HeartbeatFrame? {
              return STATUS_OK, Some(f);
            }
        }
      }
      return STATUS_TIMEOUT, None;
    }

    /** `amqp_simple_wait_frame_on_channel` */
    method WaitFrameOnChannel(channel: nat) returns (status: int, frame: Option<Frame>)
      modifies this
      ensures Waited(status, frame, queue, incoming) == Wait(old(queue), old(incoming), channel)
    {
      var cur := 0;
      while cur < |queue|
        invariant cur <= |queue| && queue == old(queue) && incoming == old(incoming)
        invariant forall j :: 0 <= j < cur ==> queue[j].channel != channel
      {
        if queue[cur].channel == channel {
          frame := Some(queue[cur]);
          queue := queue[cur + 1..];
          return STATUS_OK, frame;
        }
        cur := cur + 1;
      }
      while true
        invariant Receive(queue, incoming, channel) == Receive(old(queue), old(incoming), channel)
        decreases |incoming|
      {
        status, frame := WaitFrameInner(channel);
        if frame.None? {
          return;
        }
        if frame.value.channel == channel {
          return;
        }
        QueueFrame(frame.value);
      }
    }

    /** The same wait, seen from the channel's stream, of which `used` elements are gone. */
    method NextFrame(channel: nat, ghost stream: seq<Incoming>, ghost used: nat)
      returns (status: int, frame: Option<Frame>, ghost now: nat)
      requires used <= |stream| && Frames(channel) == stream[used..]
      modifies this
      ensures used <= now <= |stream| && Frames(channel) == stream[now..]
      ensures frame.Some? ==> |queue| + |incoming| < |old(queue)| + |old(incoming)|
      ensures if used == |stream| then now == used && status == STATUS_TIMEOUT && frame == None
              else now == used + 1 &&
                   match stream[used]
                   case Got(f) => status == STATUS_OK && frame == Some(f)
                   case WaitFailed(e) => status == e && frame == None
    {
      WaitDelivers(queue, incoming, channel);
      status, frame := WaitFrameOnChannel(channel);
      now := if used == |stream| then used else used + 1;
      assert used < |stream| ==> stream[used..][1..] == stream[used + 1..] && stream[used..][0] == stream[used];
    }

    method CopyInto(message: array<Octet>, at: nat, fragment: Bytes)
      requires at + |fragment| <= message.Length
      modifies message
      ensures message[..at + |fragment|] == old(message[..at]) + fragment
    {
      forall i | 0 <= i < |fragment| {
        message[at + i] := fragment[i];
      }
    }

    /** One turn of the reassembly loop: the next frame is copied behind the `read` bytes already
        there, or ends the loop. */
    method GatherFrame(channel: nat, message: array<Octet>, read: nat, ghost stream: seq<Incoming>, ghost used: nat)
      returns (failure: Option<Reply>, now: nat, ghost usedNow: nat)
      requires read < message.Length && used <= |stream| && Frames(channel) == stream[used..]
      requires GatherAt(stream, message.Length, used, message[..read])
      modifies this, message
      ensures usedNow <= |stream| && Frames(channel) == stream[usedNow..]
      ensures match failure
              case Some(reply) => reply != Normal && reply == Gather(stream, message.Length).reply &&
                                  usedNow == Gather(stream, message.Length).used
              case None => now <= message.Length && GatherAt(stream, message.Length, usedNow, message[..now]) &&
                           |queue| + |incoming| < |old(queue)| + |old(incoming)|
    {
      GatherNext(stream, message.Length, used, message[..read]);
      hide Gather, GatherAt, Stream, Closes;
      failure, now := None, read;
      var status, frame;
      status, frame, usedNow := NextFrame(channel, stream, used);
      if frame.None? {
        failure := Some(LibraryException(status));
        return;
      }
      var f := frame.value;
      if !f.BodyFrame? {
        failure := Some(if Closes(f) then ServerException(f) else LibraryException(STATUS_BAD_AMQP_DATA));
        return;
      }
      if read + |f.fragment| > message.Length {
        NoBodyCloses(f);
        failure := Some(LibraryException(STATUS_BAD_AMQP_DATA));
        return;
      }
      CopyInto(message, read, f.fragment);
      now := read + |f.fragment|;
    }

    /** The reassembly loop of `amqp_read_message`, copying fragments into the message's body. */
    method GatherBody(channel: nat, message: array<Octet>) returns (reply: Reply, ghost used: nat)
      modifies this, message
      ensures var g := Gather(old(Frames(channel)), message.Length);
              reply == g.reply && used == g.used && Frames(channel) == old(Frames(channel))[used..] &&
              (reply == Normal ==> message[..] == g.body)
    {
      var bodyRead: nat := 0;
      ghost var stream := Frames(channel);
      used := 0;
      assert stream[0..] == stream && message[..0] == [];
      StartGather(stream, message.Length);
      hide Gather, GatherAt, Stream;
      while bodyRead < message.Length
        invariant bodyRead <= message.Length && used <= |stream| && Frames(channel) == stream[used..]
        invariant GatherAt(stream, message.Length, used, message[..bodyRead])
        decreases |queue| + |incoming|
      {
        var failure;
        failure, bodyRead, used := GatherFrame(channel, message, bodyRead, stream, used);
        if failure.Some? {
          return failure.value, used;
        }
      }
      EndGather(stream, message.Length, used, message[..bodyRead]);
      assert message[..] == message[..bodyRead];
      return Normal, used;
    }

    /** `amqp_read_message` when every allocation succeeds. */
    method ReadMessage(channel: nat) returns (reply: Reply, props: Fields, body: Bytes)
      modifies this
      ensures var r := ReadStream(old(Frames(channel)));
              reply == r.reply && Frames(channel) == old(Frames(channel))[r.used..] &&
              (reply == Normal ==> props == r.props && body == r.body)
    {
      props, body := NO_FIELDS, [];
      hide Gather, Stream, Closes, CloneFields;
      ghost var stream := Frames(channel);
      var status, frame;
      ghost var used;
      assert stream[0..] == stream;
      status, frame, used := NextFrame(channel, stream, 0);
      if frame.None? {
        return LibraryException(status), props, body;
      }
      var f := frame.value;
      if !f.HeaderFrame? {
        if Closes(f) {
          return ServerException(f), props, body;
        }
        FrameChannel(old(queue), old(incoming), channel);
        PutBackFrame(f);
        assert [Got(f)] + stream[1..] == stream;
        return LibraryException(STATUS_UNEXPECTED_STATE), props, body;
      }
      var clone := CloneFields(f.props);
      if clone.Err? {
        return LibraryException(clone.status), props, body;
      }
      props := clone.value;
      var message := new Octet[f.bodySize];
      reply, used := GatherBody(channel, message);
      body := message[..];
      assert stream[1..][used..] == stream[1 + used..];
    }

    /** The opening of `amqp_consume_message`: takes the next frame of any channel, and puts it back
        unless it is a delivery.  Then every channel still sees the same frames. */
    method TakeDelivery() returns (status: int, delivery: Option<Frame>, putBack: bool)
      modifies this
      ensures putBack ==> status == STATUS_UNEXPECTED_STATE && delivery == None && queue != [] && !IsDelivery(queue[0])
      ensures delivery == None ==> SameFrames(old(queue), old(incoming), queue, incoming)
      ensures delivery == None && !putBack ==> old(queue) == [] == queue
      ensures delivery.Some? ==> status == STATUS_OK && !putBack && IsDelivery(delivery.value) &&
                                 FrontOf(delivery.value, old(queue), old(incoming), queue, incoming)
    {
      delivery, putBack := None, false;
      var frame: Option<Frame>;
      hide FrontOf;
      if queue != [] {
        status, frame := STATUS_OK, Some(queue[0]);
        assert queue == [queue[0]] + queue[1..];
        PushFront(queue[0], queue[1..], incoming);
        queue := queue[1..];
      } else {
        status, frame := WaitFrameInner(0);
        if frame.None? {
          assert SameFrames([], old(incoming), [], incoming);
          return;
        }
        ArrivedFront(frame.value, old(incoming), incoming);
      }
      if !IsDelivery(frame.value) {
        FrontBack(frame.value, old(queue), old(incoming), queue, incoming);
        PutBackFrame(frame.value);
        return STATUS_UNEXPECTED_STATE, None, true;
      }
      delivery := frame;
    }
  }

  /** The first state is the second with one more frame at the front of its channel. */
  ghost predicate FrontOf(f: Frame, queue0: seq<Frame>, incoming0: seq<Incoming>, queue1: seq<Frame>, incoming1: seq<Incoming>) {
    forall c :: FramesFor(queue0, incoming0, c) == (if c == f.channel then [f] else []) + FramesFor(queue1, incoming1, c)
  }

  ghost predicate SameFrames(queue0: seq<Frame>, incoming0: seq<Incoming>, queue1: seq<Frame>, incoming1: seq<Incoming>) {
    forall c :: FramesFor(queue0, incoming0, c) == FramesFor(queue1, incoming1, c)
  }

  lemma {:induction false} PushFront(f: Frame, queue: seq<Frame>, incoming: seq<Incoming>)
    ensures FrontOf(f, [f] + queue, incoming, queue, incoming)
    ensures Stream([f] + queue, incoming, f.channel) == [Got(f)] + Stream(queue, incoming, f.channel)
    ensures forall c :: c != f.channel ==> Stream([f] + queue, incoming, c) == Stream(queue, incoming, c)
  {
    assert ([f] + queue)[1..] == queue;
    forall c
      ensures Queued([f] + queue, c) == (if c == f.channel then [f] else []) + Queued(queue, c)
      ensures FramesFor([f] + queue, incoming, c) == (if c == f.channel then [f] else []) + FramesFor(queue, incoming, c)
    {
    }
    assert Wrap([f] + Queued(queue, f.channel)) == [Got(f)] + Wrap(Queued(queue, f.channel));
  }

  lemma {:induction false} ArrivedFront(f: Frame, incoming0: seq<Incoming>, incoming1: seq<Incoming>)
    requires forall c :: Coming(incoming0, c) == (if f.channel == c then [f] else []) + Coming(incoming1, c)
    ensures FrontOf(f, [], incoming0, [], incoming1)
  {
    forall c
      ensures FramesFor([], incoming0, c) == (if c == f.channel then [f] else []) + FramesFor([], incoming1, c)
    {
      assert Queued([], c) == [];
    }
  }

  lemma {:induction false} FrontBack(f: Frame, queue0: seq<Frame>, incoming0: seq<Incoming>, queue1: seq<Frame>, incoming1: seq<Incoming>)
    requires FrontOf(f, queue0, incoming0, queue1, incoming1)
    ensures SameFrames(queue0, incoming0, [f] + queue1, incoming1)
  {
    PushFront(f, queue1, incoming1);
  }

  /** A channel's stream holds only frames of that channel. */
  lemma {:induction false} FrameChannel(queue: seq<Frame>, incoming: seq<Incoming>, channel: nat)
    ensures forall e :: e in Stream(queue, incoming, channel) && e.Got? ==> e.frame.channel == channel
  {
    QueuedChannel(queue, channel);
    ArrivingChannel(incoming, channel);
  }

  lemma {:induction false} QueuedChannel(queue: seq<Frame>, channel: nat)
    ensures forall f :: f in Queued(queue, channel) ==> f.channel == channel
  {
    if queue != [] {
      QueuedChannel(queue[1..], channel);
    }
  }

  lemma {:induction false} ArrivingChannel(incoming: seq<Incoming>, channel: nat)
    ensures forall e :: e in Arriving(incoming, channel) && e.Got? ==> e.frame.channel == channel
  {
    if incoming != [] {
      ArrivingChannel(incoming[1..], channel);
    }
  }
}
