/** The outbound half of the connection object: the in-place frame encoder, the sending loops over a
    socket that may take any part of the data, and publishing with body fragmentation. */
module AmqpSender {
  import opened AmqpData
  import opened AmqpFrames

  /** What one call into the operating system does: `Sent` takes up to that many bytes, `Ready` is a
      poll or a clock that succeeds, `Timeout` one that times out, `Failure` an error. */
  datatype Event = Sent(count: nat) | Ready | Timeout | Failure(status: int)

  /** No failure and no time-out is to come. */
  predicate Calm(events: seq<Event>) {
    forall e :: e in events ==> e.Sent? || e.Ready?
  }

  /** The clock fails; or it has not passed the deadline; or it has, and the connection then yields
      something, nothing in time, or an error. */
  function HeartbeatStatus(events: seq<Event>): int {
    if events == [] || events[0].Failure? then -14
    else if !events[0].Timeout? then 0
    else if |events| == 1 then -9
    else
      match events[1]
      case Timeout => -15
      case Failure(status) => if status == -13 then -15 else status
      case _ => 0
  }

  // ----- Specification of publishing -----

  function Fragments(channel: nat, body: Bytes, usable: nat): seq<Frame>
    requires usable > 0
    decreases |body|
  {
    if body == [] then []
    else
      var len := if |body| >= usable then usable else |body|;
      [BodyFrame(channel, body[..len])] + Fragments(channel, body[len..], usable)
  }

  function PublishFrames(channel: nat, publishMethod: Fields, props: Fields, body: Bytes, usable: nat): seq<Frame>
    requires usable > 0
  {
    [MethodFrame(channel, BASIC_PUBLISH_METHOD, publishMethod), HeaderFrame(channel, BASIC_CLASS, |body|, props)]
      + Fragments(channel, body, usable)
  }

  function Bodies(frames: seq<Frame>): Bytes {
    if frames == [] then []
    else (if frames[0].BodyFrame? then frames[0].fragment else []) + Bodies(frames[1..])
  }

  /** Fragments are non-empty and at most `usable` long, and together they are the body. */
  lemma {:induction false} FragmentsCover(channel: nat, body: Bytes, usable: nat)
    requires usable > 0
    ensures var fs := Fragments(channel, body, usable);
            Bodies(fs) == body && AllFragments(fs, channel, usable)
    decreases |body|
  {
    if body != [] {
      var len := if |body| >= usable then usable else |body|;
      FragmentsCover(channel, body[len..], usable);
      assert body == body[..len] + body[len..];
      var fs, tail := Fragments(channel, body, usable), Fragments(channel, body[len..], usable);
      assert fs[1..] == tail;
    }
  }

  /** The fragment with number `i` is the body from `i * usable` on, `usable` octets or what is left. */
  lemma {:induction false} FragmentAt(channel: nat, body: Bytes, usable: nat, i: nat)
    requires usable > 0 && i < |Fragments(channel, body, usable)|
    ensures var from := i * usable;
            var to := if from + usable < |body| then from + usable else |body|;
            0 <= from < to <= |body| && Fragments(channel, body, usable)[i] == BodyFrame(channel, body[from..to])
  {
    FragmentFrom(channel, body, usable, i);
    hide Fragments;
  }

  function StartOf(i: nat, usable: nat): int {
    i * usable
  }

  lemma {:induction false} StartStep(i: nat, usable: nat)
    ensures StartOf(0, usable) == 0 && (i > 0 ==> StartOf(i, usable) == StartOf(i - 1, usable) + usable)
  {
  }

  lemma {:induction false} FirstFragment(channel: nat, body: Bytes, usable: nat)
    requires usable > 0 && Fragments(channel, body, usable) != []
    ensures body != []
    ensures var len := if |body| >= usable then usable else |body|;
            Fragments(channel, body, usable) == [BodyFrame(channel, body[..len])] + Fragments(channel, body[len..], usable) &&
            (|body| == len ==> Fragments(channel, body[len..], usable) == [])
  {
  }

  lemma {:induction false} FragmentFrom(channel: nat, body: Bytes, usable: nat, i: nat)
    requires usable > 0 && i < |Fragments(channel, body, usable)|
    ensures var from := StartOf(i, usable);
            var to := if from + usable < |body| then from + usable else |body|;
            0 <= from < to <= |body| && Fragments(channel, body, usable)[i] == BodyFrame(channel, body[from..to])
    decreases |body|
  {
    hide *;
    FirstFragment(channel, body, usable);
    var len := if |body| >= usable then usable else |body|;
    var rest := body[len..];
    StartStep(i, usable);
    if i == 0 {
      assert body[0..len] == body[..len];
    } else {
      assert |body| > usable;
      FragmentFrom(channel, rest, usable, i - 1);
      var from := StartOf(i - 1, usable);
      SliceShift(body, usable, from, if from + usable < |rest| then from + usable else |rest|);
    }
  }

  lemma {:induction false} SliceShift(body: Bytes, n: nat, i: nat, j: nat)
    requires i <= j && j + n <= |body|
    ensures body[n..][i..j] == body[i + n..j + n]
  {
  }

  predicate AllFragments(fs: seq<Frame>, channel: nat, usable: nat) {
    forall i :: 0 <= i < |fs| ==> fs[i].BodyFrame? && fs[i].channel == channel && 0 < |fs[i].fragment| <= usable
  }

  /** There are as few fragments as possible: the body's length over `usable`, rounded up. */
  lemma {:induction false} FragmentCount(channel: nat, body: Bytes, usable: nat)
    requires usable > 0 && body != []
    ensures var k := |Fragments(channel, body, usable)|; (k - 1) * usable < |body| <= k * usable
  {
    CountFrom(channel, body, usable);
    hide Fragments;
  }

  lemma {:induction false} CountFrom(channel: nat, body: Bytes, usable: nat)
    requires usable > 0 && body != []
    ensures var k := |Fragments(channel, body, usable)|; k > 0 && StartOf(k - 1, usable) < |body| <= StartOf(k, usable)
    decreases |body|
  {
    var len := if |body| >= usable then usable else |body|;
    var rest := body[len..];
    var k := |Fragments(channel, rest, usable)|;
    assert Fragments(channel, body, usable) == [BodyFrame(channel, body[..len])] + Fragments(channel, rest, usable);
    assert rest == [] ==> k == 0;
    StartStep(k, usable);
    StartStep(k + 1, usable);
    hide Fragments, StartOf;
    if rest != [] {
      CountFrom(channel, rest, usable);
    }
  }

  /** The wire grew from `before` to `now` by some beginning of `b`. */
  predicate WrotePrefix(before: Bytes, now: Bytes, b: Bytes) {
    |before| <= |now| <= |before| + |b| && now == before + b[..|now| - |before|]
  }

  lemma WroteMore(before: Bytes, done: Bytes, now: Bytes, b: Bytes, rest: Bytes)
    requires WrotePrefix(before + done, now, b)
    ensures WrotePrefix(before, now, done + b + rest)
    ensures now == before + done + b ==> now == before + (done + b)
  {
    var k := |now| - |before + done|;
    assert (done + b + rest)[..|done| + k] == done + b[..k];
  }

  predicate Encodable(codec: Codec, frames: seq<Frame>, room: nat)
    requires room >= 20
  {
    forall i :: 0 <= i < |frames| ==> Encode(codec, frames[i], room).Ok?
  }

  lemma {:induction false} EncodeAllConcat(codec: Codec, a: seq<Frame>, b: seq<Frame>, room: nat)
    requires room >= 20 && Encodable(codec, a, room)
    ensures EncodeAll(codec, a + b, room) == EncodeAll(codec, a, room) + EncodeAll(codec, b, room)
    decreases |a|
  {
    if a == [] {
      assert a + b == b;
    } else {
      assert (a + b)[1..] == a[1..] + b;
      EncodeAllConcat(codec, a[1..], b, room);
    }
  }

  /** One more frame of a list went out, wholly or in part. */
  lemma {:induction false} NextSent(codec: Codec, frames: seq<Frame>, n: nat, room: nat, before: Bytes, now: Bytes)
    requires room >= 20 && n < |frames| && Encodable(codec, frames[..n], room)
    requires Encode(codec, frames[n], room).Ok?
    requires WrotePrefix(before + EncodeAll(codec, frames[..n], room), now, Encode(codec, frames[n], room).value)
    ensures WrotePrefix(before, now, EncodeAll(codec, frames, room))
    ensures var done := EncodeAll(codec, frames[..n], room);
            var b := Encode(codec, frames[n], room).value;
            EncodeAll(codec, frames[..n + 1], room) == done + b && before + (done + b) == before + done + b
    ensures Encodable(codec, frames[..n + 1], room)
  {
    var done, b := EncodeAll(codec, frames[..n], room), Encode(codec, frames[n], room).value;
    hide *;
    SplitAt(codec, frames, n, room);
    WroteMore(before, done, now, b, EncodeAll(codec, frames[n + 1..], room));
    Regroup(before, done, b);
  }

  lemma {:induction false} Regroup(a: Bytes, b: Bytes, c: Bytes)
    ensures a + (b + c) == a + b + c
  {
  }

  lemma {:induction false} FramesSplit(frames: seq<Frame>, n: nat)
    requires n < |frames|
    ensures frames == frames[..n] + ([frames[n]] + frames[n + 1..]) && frames[..n + 1] == frames[..n] + [frames[n]]
  {
  }

  lemma {:induction false} EncodeHead(codec: Codec, f: Frame, tail: seq<Frame>, room: nat)
    requires room >= 20 && Encode(codec, f, room).Ok?
    ensures EncodeAll(codec, [f] + tail, room) == Encode(codec, f, room).value + EncodeAll(codec, tail, room)
    ensures EncodeAll(codec, [f], room) == Encode(codec, f, room).value
  {
    assert ([f] + tail)[1..] == tail && [f][1..] == [];
    hide Encode;
    assert EncodeAll(codec, [], room) == [];
  }

  lemma {:induction false} SplitAt(codec: Codec, frames: seq<Frame>, n: nat, room: nat)
    requires room >= 20 && n < |frames| && Encodable(codec, frames[..n], room)
    requires Encode(codec, frames[n], room).Ok?
    ensures var done, b := EncodeAll(codec, frames[..n], room), Encode(codec, frames[n], room).value;
            EncodeAll(codec, frames, room) == done + b + EncodeAll(codec, frames[n + 1..], room) &&
            EncodeAll(codec, frames[..n + 1], room) == done + b
    ensures Encodable(codec, frames[..n + 1], room)
  {
    hide Encode, EncodeAll;
    FramesSplit(frames, n);
    EncodeHead(codec, frames[n], frames[n + 1..], room);
    EncodeAllConcat(codec, frames[..n], [frames[n]] + frames[n + 1..], room);
    EncodeAllConcat(codec, frames[..n], [frames[n]], room);
  }

  /** The next frame of a list cannot be encoded. */
  lemma {:induction false} NothingSent(codec: Codec, frames: seq<Frame>, n: nat, room: nat, before: Bytes, now: Bytes)
    requires room >= 20 && n < |frames| && Encodable(codec, frames[..n], room)
    requires Encode(codec, frames[n], room).Err? && now == before + EncodeAll(codec, frames[..n], room)
    ensures WrotePrefix(before, now, EncodeAll(codec, frames, room))
  {
    assert frames == frames[..n] + frames[n..];
    EncodeAllConcat(codec, frames[..n], frames[n..], room);
    WroteMore(before, EncodeAll(codec, frames[..n], room), now, [], []);
  }

  // ----- The sender -----

  class Sender {
    const codec: Codec
    const frameMax: nat
    const outbound: array<Octet>
    /** Everything the socket has taken so far. */
    var wire: Bytes
    /** The outcomes of the coming system calls; when they run out, the calls fail. */
    var events: seq<Event>

    ghost predicate Valid()
      reads this
    {
      codec.Valid() && 20 <= frameMax == outbound.Length < 0x8000_0000 &&
      forall e :: e in events && e.Failure? ==> e.status < 0
    }

    constructor (codec: Codec, frameMax: nat, events: seq<Event>)
      requires codec.Valid() && 20 <= frameMax < 0x8000_0000
      requires forall e :: e in events && e.Failure? ==> e.status < 0
      ensures Valid() && fresh(outbound) && wire == []
      ensures this.codec == codec && this.frameMax == frameMax && this.events == events
    {
      this.codec, this.frameMax, this.events := codec, frameMax, events;
      outbound := new Octet[frameMax];
      wire := [];
    }

    /** memcpy into the outbound buffer; also `amqp_e8` .. `amqp_e64` on big-endian bytes. */
    method Put(offset: nat, data: Bytes)
      requires offset + |data| <= outbound.Length
      modifies outbound
      ensures forall i :: 0 <= i < outbound.Length ==>
                outbound[i] == if offset <= i < offset + |data| then data[i - offset] else old(outbound[i])
      ensures outbound[offset..offset + |data|] == data
    {
      forall i | 0 <= i < |data| {
        outbound[offset + i] := data[i];
      }
    }

    /** The METHOD case of `amqp_frame_to_bytes`: method number and encoded fields. */
    method PutMethodPayload(id: nat, fields: Fields) returns (status: int, payload: Bytes)
      requires Valid()
      modifies outbound
      ensures match codec.encodeMethod(id, fields, frameMax - 12)
              case Ok(b) => status == STATUS_OK && payload == Be(id, 4) + b && |payload| <= frameMax - 8 &&
                            outbound[HEADER_SIZE..HEADER_SIZE + |payload|] == payload
              case Err(e) => status == e < 0
      ensures outbound[..HEADER_SIZE] == old(outbound[..HEADER_SIZE])
    {
      payload := [];
      hide Be;
      Put(HEADER_SIZE, Be(id, 4));
      ghost var s1 := outbound[..];
      assert s1[7..11] == Be(id, 4);
      var res := codec.encodeMethod(id, fields, frameMax - HEADER_SIZE - 4 - FOOTER_SIZE);
      if res.Err? {
        return res.status, payload;
      }
      Put(HEADER_SIZE + 4, res.value);
      ghost var s2 := outbound[..];
      assert s2[11..11 + |res.value|] == res.value;
      SliceKept(s1, s2, 7, 11);
      TwoParts(s2, Be(id, 4), res.value);
      payload := Be(id, 4) + res.value;
      assert outbound[HEADER_SIZE..HEADER_SIZE + |payload|] == s2[7..7 + |payload|];
      return STATUS_OK, payload;
    }

    /** The HEADER case: class, a zero weight, body size and encoded properties. */
    method PutHeaderPayload(classId: nat, bodySize: nat, props: Fields) returns (status: int, payload: Bytes)
      requires Valid()
      modifies outbound
      ensures match codec.encodeProperties(classId, props, frameMax - 20)
              case Ok(b) => status == STATUS_OK && payload == Be(classId, 2) + Be(0, 2) + Be(bodySize, 8) + b &&
                            |payload| <= frameMax - 8 && outbound[HEADER_SIZE..HEADER_SIZE + |payload|] == payload
              case Err(e) => status == e < 0
      ensures outbound[..HEADER_SIZE] == old(outbound[..HEADER_SIZE])
    {
      payload := [];
      hide Be;
      Put(HEADER_SIZE, Be(classId, 2));
      ghost var s1 := outbound[..];
      assert s1[7..9] == Be(classId, 2);
      Put(HEADER_SIZE + 2, Be(0, 2));
      ghost var s2 := outbound[..];
      assert s2[9..11] == Be(0, 2);
      Put(HEADER_SIZE + 4, Be(bodySize, 8));
      ghost var s3 := outbound[..];
      assert s3[11..19] == Be(bodySize, 8);
      var res := codec.encodeProperties(classId, props, frameMax - HEADER_SIZE - 12 - FOOTER_SIZE);
      if res.Err? {
        return res.status, payload;
      }
      Put(HEADER_SIZE + 12, res.value);
      ghost var s4 := outbound[..];
      assert s4[19..19 + |res.value|] == res.value;
      SliceKept(s1, s4, 7, 9);
      SliceKept(s2, s4, 9, 11);
      SliceKept(s3, s4, 11, 19);
      FourParts(s4, Be(classId, 2), Be(0, 2), Be(bodySize, 8), res.value);
      payload := Be(classId, 2) + Be(0, 2) + Be(bodySize, 8) + res.value;
      assert outbound[HEADER_SIZE..HEADER_SIZE + |payload|] == s4[7..7 + |payload|];
      return STATUS_OK, payload;
    }

    static lemma {:induction false} TwoParts(s: Bytes, a: Bytes, b: Bytes)
      requires |a| == 4 && 11 + |b| <= |s|
      requires s[7..11] == a && s[11..11 + |b|] == b
      ensures s[7..7 + |a + b|] == a + b
    {
    }

    static lemma {:induction false} FourParts(s: Bytes, a: Bytes, b: Bytes, c: Bytes, d: Bytes)
      requires |a| == 2 && |b| == 2 && |c| == 8 && 19 + |d| <= |s|
      requires s[7..9] == a && s[9..11] == b && s[11..19] == c && s[19..19 + |d|] == d
      ensures s[7..19 + |d|] == a + b + c + d
    {
      assert s[7..19 + |d|] == s[7..9] + s[9..11] + s[11..19] + s[19..19 + |d|];
    }

    static function TypeOf(frame: Frame): Octet {
      match frame
      case BodyFrame(_, _) => FRAME_BODY
      case MethodFrame(_, _, _) => FRAME_METHOD
      case HeaderFrame(_, _, _, _) => FRAME_HEADER
      case HeartbeatFrame(_) => FRAME_HEARTBEAT
      case ProtocolFrame(_, _, _, _, _) => PSEUDOFRAME_PROTOCOL_HEADER
    }

    /** `amqp_frame_to_bytes`: type and channel first, then the payload, then the size and the end
        marker around it.  Body fragments are copied without a check, so they have to fit. */
    method FrameToBytes(frame: Frame) returns (status: int, len: nat)
      requires Valid() && BodyFits(frame, frameMax)
      modifies outbound
      ensures len <= frameMax
      ensures match Encode(codec, frame, frameMax)
              case Ok(b) => status == STATUS_OK && len == |b| && outbound[..len] == b
              case Err(e) => status == e < 0
    {
      len, status := 0, STATUS_OK;
      var frameType := TypeOf(frame);
      Put(0, [frameType]);
      Put(1, Be(frame.channel, 2));
      ghost var head := outbound[..HEADER_SIZE];
      HeadParts(head, frameType, Be(frame.channel, 2));
      var payload;
      hide Envelope, Be;
      status, payload := PutPayload(frame);
      if status < 0 {
        return;
      }
      assert outbound[0..3] == outbound[..HEADER_SIZE][0..3];
      len := CloseFrame(frameType, frame.channel, payload);
    }

    /** The payload of the frame's encoding, if it has one. */
    static predicate IsPayload(codec: Codec, frame: Frame, room: nat, frameType: Octet, payload: Bytes)
      requires room >= 20
    {
      Encode(codec, frame, room) == Ok(Envelope(frameType, frame.channel, payload))
    }

    /** The `switch` of `amqp_frame_to_bytes`. */
    method PutPayload(frame: Frame) returns (status: int, payload: Bytes)
      requires Valid() && BodyFits(frame, frameMax)
      modifies outbound
      ensures match Encode(codec, frame, frameMax)
              case Ok(b) => status == STATUS_OK && |payload| + 8 <= frameMax &&
                            IsPayload(codec, frame, frameMax, TypeOf(frame), payload) &&
                            outbound[HEADER_SIZE..HEADER_SIZE + |payload|] == payload
              case Err(e) => status == e < 0
      ensures outbound[..HEADER_SIZE] == old(outbound[..HEADER_SIZE])
    {
      status, payload := STATUS_OK, [];
      match frame {
        case BodyFrame(_, fragment) =>
          Put(HEADER_SIZE, fragment);
          payload := fragment;
        case MethodFrame(_, id, fields) =>
          status, payload := PutMethodPayload(id, fields);
        case HeaderFrame(_, classId, bodySize, props) =>
          status, payload := PutHeaderPayload(classId, bodySize, props);
        case HeartbeatFrame(_) =>
        case ProtocolFrame(_, _, _, _, _) =>
          status := STATUS_INVALID_PARAMETER;
      }
    }

    static lemma {:induction false} HeadParts(head: Bytes, frameType: Octet, channel: Bytes)
      requires |head| == HEADER_SIZE && |channel| == 2
      requires head[0] == frameType && head[1] == channel[0] && head[2] == channel[1]
      ensures head[0..3] == [frameType] + channel
    {
    }

    /** The size and the end marker, written around the payload. */
    method CloseFrame(ghost frameType: Octet, ghost channel: nat, payload: Bytes) returns (len: nat)
      requires |payload| + 8 <= outbound.Length
      requires outbound[0..3] == [frameType] + Be(channel, 2)
      requires outbound[HEADER_SIZE..HEADER_SIZE + |payload|] == payload
      modifies outbound
      ensures len == |payload| + 8 && outbound[..len] == Envelope(frameType, channel, payload)
    {
      ghost var n, before := |payload|, outbound[..];
      hide Be, Envelope;
      Put(3, Be(|payload|, 4));
      Put(HEADER_SIZE + |payload|, [FRAME_END]);
      len := |payload| + HEADER_SIZE + FOOTER_SIZE;
      ghost var after := outbound[..];
      SliceKept(before, after, 0, 3);
      SliceKept(before, after, HEADER_SIZE, HEADER_SIZE + n);
      assert after[3..7] == Be(n, 4) && after[HEADER_SIZE + n] == FRAME_END;
      InParts(after, frameType, channel, payload);
      assert outbound[..len] == after[..len];
    }

    static lemma {:induction false} SliceKept(a: Bytes, b: Bytes, i: nat, j: nat)
      requires i <= j <= |a| == |b| && forall k :: i <= k < j ==> a[k] == b[k]
      ensures a[i..j] == b[i..j]
    {
    }

    static lemma {:induction false} InParts(s: Bytes, frameType: Octet, channel: nat, payload: Bytes)
      requires |payload| + 8 <= |s| && s[0..3] == [frameType] + Be(channel, 2) && s[3..7] == Be(|payload|, 4)
      requires s[7..7 + |payload|] == payload && s[7 + |payload|] == FRAME_END
      ensures s[..|payload| + 8] == Envelope(frameType, channel, payload)
    {
      var n := |payload|;
      hide Be;
      assert s[..n + 8] == s[0..3] + s[3..7] + s[7..7 + n] + [s[7 + n]];
    }

    method NextEvent() returns (e: Event)
      requires Valid()
      modifies this`events
      ensures Valid() && (e.Failure? ==> e.status < 0)
      ensures |events| < |old(events)| || (events == old(events) == [] && e == Failure(STATUS_SOCKET_ERROR))
      ensures Calm(old(events)) ==> Calm(events) && (e.Sent? || e.Ready? || events == [])
      ensures old(events) != [] ==> e == old(events)[0] && events == old(events)[1..]
    {
      if events == [] {
        return Failure(STATUS_SOCKET_ERROR);
      }
      e := events[0];
      events := events[1..];
    }

    /** `amqp_try_send`: keeps sending until everything is taken, a poll times out or a call fails. */
    method TrySend(data: Bytes) returns (sent: int)
      requires Valid() && data != []
      modifies this`wire, this`events
      ensures Valid() && |events| <= |old(events)|
      ensures sent < 0 || sent < |data| ==> |events| < |old(events)| || events == []
      ensures sent <= |data| && WrotePrefix(old(wire), wire, data)
      ensures sent >= 0 ==> wire == old(wire) + data[..sent]
      ensures Calm(old(events)) ==> Calm(events) && (sent == |data| || events == [])
    {
      var done := 0;
      while true
        invariant Valid() && 0 <= done < |data| && wire == old(wire) + data[..done]
        invariant |events| <= |old(events)| && (Calm(old(events)) ==> Calm(events))
        decreases |events|
      {
        var e := NextEvent();
        match e
        case Sent(count) =>
          var taken := if count < |data| - done then count else |data| - done;
          wire := wire + data[done..done + taken];
          assert data[..done] + data[done..done + taken] == data[..done + taken];
          done := done + taken;
          if done == |data| {
            return done;
          }
        case Ready =>
        case Timeout =>
          return done;
        case Failure(status) =>
          return status;
      }
    }

    /** `amqp_try_recv` as the sender sees it. */
    method TryRecv() returns (status: int)
      requires Valid()
      modifies this`events
      ensures Valid() && |events| <= |old(events)| && status <= 0
      ensures status == STATUS_OK ==> |events| < |old(events)|
      ensures status == if old(events) == [] then -9
                        else if old(events)[0].Timeout? then -13
                        else if old(events)[0].Failure? then old(events)[0].status
                        else 0
      ensures Calm(old(events)) ==> Calm(events) && (status == STATUS_OK || events == [])
    {
      var e := NextEvent();
      status := if e.Failure? then e.status else if e.Timeout? then STATUS_TIMEOUT else STATUS_OK;
    }

    /** `amqp_time_s_from_now`: only the clock can fail. */
    method TimeFromNow() returns (status: int)
      requires Valid()
      modifies this`events
      ensures Valid() && (status == STATUS_OK || status == STATUS_TIMER_FAILURE)
      ensures Calm(old(events)) ==> Calm(events) && (status == STATUS_OK || events == [])
    {
      var e := NextEvent();
      status := if e.Failure? then STATUS_TIMER_FAILURE else STATUS_OK;
    }

    /** The `start_send` loop of `amqp_send_frame_inner`: what is left over is sent again until the
        socket has taken it all or something fails. */
    method SendBytes(data: Bytes) returns (status: int)
      requires Valid() && data != []
      modifies this`wire, this`events
      ensures Valid() && status <= 0 && WrotePrefix(old(wire), wire, data)
      ensures status == STATUS_OK ==> wire == old(wire) + data
      ensures Calm(old(events)) ==> Calm(events) && (status == STATUS_OK || events == [])
    {
      var encoded := data;
      ghost var done := [];
      hide WrotePrefix, Calm;
      while true
        invariant Calm(old(events)) ==> Calm(events)
        invariant Valid() && encoded != [] && data == done + encoded && wire == old(wire) + done
        decreases |events|
      {
        var sent := TrySend(encoded);
        WroteMore(old(wire), done, wire, encoded, []);
        assert data == done + encoded + [];
        if sent < 0 {
          return sent;
        }
        if sent == |encoded| {
          break;
        }
        var received := TryRecv();
        if received == STATUS_TIMEOUT {
          return STATUS_HEARTBEAT_TIMEOUT;
        } else if received != STATUS_OK {
          return received;
        }
        done := done + encoded[..sent];
        encoded := encoded[sent..];
      }
      return STATUS_OK;
    }

    /** `amqp_send_frame_inner`: what reaches the wire is always a prefix of the frame's encoding,
        and all of it when the call succeeds. */
    method SendFrame(frame: Frame) returns (status: int)
      requires Valid() && BodyFits(frame, frameMax)
      modifies this`wire, this`events, outbound
      ensures Valid() && status <= 0
      ensures match Encode(codec, frame, frameMax)
              case Ok(b) =>
                WrotePrefix(old(wire), wire, b) && (status == STATUS_OK ==> wire == old(wire) + b)
              case Err(e) => status == e < 0 && wire == old(wire)
      ensures Calm(old(events)) ==>
                Calm(events) && (status == STATUS_OK || events == [] || Encode(codec, frame, frameMax).Err?)
    {
      var len;
      status, len := FrameToBytes(frame);
      if status != STATUS_OK {
        return;
      }
      EncodedFits(codec, frame, frameMax);
      hide Encode, WrotePrefix, Calm;
      status := SendBytes(outbound[..len]);
      if status != STATUS_OK {
        return;
      }
      status := TimeFromNow();
    }

    /** The check that opens `amqp_basic_publish`: `amqp_time_has_past` and, if so, `amqp_try_recv`. */
    method CheckHeartbeat() returns (status: int)
      requires Valid()
      modifies this`events
      ensures Valid() && status <= 0 && status == HeartbeatStatus(old(events))
      ensures Calm(old(events)) ==> Calm(events) && (status == STATUS_OK || events == [])
    {
      var clock := NextEvent();
      if clock.Failure? {
        return STATUS_TIMER_FAILURE;
      } else if clock.Timeout? {
        status := TryRecv();
        if status == STATUS_TIMEOUT {
          return STATUS_HEARTBEAT_TIMEOUT;
        }
        return;
      }
      return STATUS_OK;
    }

    static lemma FragmentEncodes(codec: Codec, channel: nat, fragment: Bytes, room: nat)
      requires room >= 20
      ensures Encode(codec, BodyFrame(channel, fragment), room).Ok?
    {
    }

    /** The fragmentation loop of `amqp_basic_publish`. */
    method SendBody(ghost frames: seq<Frame>, ghost before: Bytes, channel: nat, body: Bytes) returns (status: int)
      requires Valid()
      requires |frames| >= 2 && frames[2..] == Fragments(channel, body, frameMax - 8) && Progress(frames, 2, before)
      modifies this`wire, this`events, outbound
      ensures Valid() && status <= 0
      ensures status == STATUS_OK ==> Progress(frames, |frames|, before)
      ensures status < 0 ==> WrotePrefix(before, wire, EncodeAll(codec, frames, frameMax))
      ensures Calm(old(events)) ==> Calm(events) && (status == STATUS_OK || events == [])
    {
      var usable := frameMax - (HEADER_SIZE + FOOTER_SIZE);
      ghost var n := 2;
      var bodyOffset := 0;
      hide Encode, EncodeAll, WrotePrefix, Encodable, Calm;
      assert body[0..] == body;
      while bodyOffset < |body|
        invariant Valid() && bodyOffset <= |body| && n <= |frames|
        invariant frames[n..] == Fragments(channel, body[bodyOffset..], usable)
        invariant Progress(frames, n, before)
        invariant Calm(old(events)) ==> Calm(events)
      {
        var remaining := |body| - bodyOffset;
        var len := if remaining >= usable then usable else remaining;
        var fragment := body[bodyOffset..bodyOffset + len];
        ghost var rest := body[bodyOffset..];
        assert fragment == rest[..len] && rest[len..] == body[bodyOffset + len..];
        assert frames[n..][0] == BodyFrame(channel, fragment);
        assert frames[n..][1..] == frames[n + 1..];
        bodyOffset := bodyOffset + len;
        FragmentEncodes(codec, channel, fragment, frameMax);
        status := SendNext(frames, n, before, BodyFrame(channel, fragment));
        if status < 0 {
          return;
        }
        n := n + 1;
      }
      assert n == |frames|;
      return STATUS_OK;
    }

    /** `amqp_basic_publish`: a method frame, a content header and the fragments of the body.  The
        wire never holds anything but a prefix of their encodings, and all of it on success; only the
        operating system and the field encoders can make it fail. */
    method Publish(channel: nat, publishMethod: Fields, props: Fields, body: Bytes) returns (status: int)
      requires Valid()
      modifies this`wire, this`events, outbound
      ensures Valid() && status <= 0
      ensures HeartbeatStatus(old(events)) != 0 ==> status == HeartbeatStatus(old(events)) && wire == old(wire)
      ensures var frames := PublishFrames(channel, publishMethod, props, body, frameMax - 8);
              WrotePrefix(old(wire), wire, EncodeAll(codec, frames, frameMax)) &&
              old(wire) <= wire <= old(wire) + EncodeAll(codec, frames, frameMax) &&
              (status == STATUS_OK ==>
                wire == old(wire) + EncodeAll(codec, frames, frameMax) &&
                Encodable(codec, frames, frameMax)) &&
              ((forall e :: e in old(events) ==> e.Sent? || e.Ready?) && events != [] && Encodable(codec, frames, frameMax) ==> status == STATUS_OK)
    {
      ghost var frames := PublishFrames(channel, publishMethod, props, body, frameMax - 8);
      status := CheckHeartbeat();
      if status != STATUS_OK {
        PrefixMeans(old(wire), wire, EncodeAll(codec, frames, frameMax));
        return;
      }
      status := SendMessage(frames, channel, publishMethod, props, body);
      PrefixMeans(old(wire), wire, EncodeAll(codec, frames, frameMax));
    }

    static lemma {:induction false} PrefixMeans(before: Bytes, now: Bytes, b: Bytes)
      ensures WrotePrefix(before, now, b) <==> before <= now <= before + b
    {
      if WrotePrefix(before, now, b) {
        assert now == (before + b)[..|now|];
      }
      if before <= now <= before + b {
        assert now == now[..|before|] + now[|before|..];
        assert now[|before|..] == (before + b)[..|now|][|before|..] == b[..|now| - |before|];
      }
    }

    /** The three parts of a publish behind the check. */
    method SendMessage(ghost frames: seq<Frame>, channel: nat, publishMethod: Fields, props: Fields, body: Bytes)
      returns (status: int)
      requires Valid() && frames == PublishFrames(channel, publishMethod, props, body, frameMax - 8)
      modifies this`wire, this`events, outbound
      ensures Valid() && status <= 0 && WrotePrefix(old(wire), wire, EncodeAll(codec, frames, frameMax))
      ensures status == STATUS_OK ==>
                wire == old(wire) + EncodeAll(codec, frames, frameMax) && Encodable(codec, frames, frameMax)
      ensures Calm(old(events)) && events != [] && Encodable(codec, frames, frameMax) ==> status == STATUS_OK
    {
      assert frames[..0] == [];
      hide Calm;
      status := SendNext(frames, 0, old(wire), MethodFrame(channel, BASIC_PUBLISH_METHOD, publishMethod));
      if status < 0 {
        return;
      }
      status := SendNext(frames, 1, old(wire), HeaderFrame(channel, BASIC_CLASS, |body|, props));
      if status < 0 {
        return;
      }
      status := SendBody(frames, old(wire), channel, body);
      assert frames[..|frames|] == frames;
    }

    /** The first `n` of the frames went out completely. */
    ghost predicate Progress(frames: seq<Frame>, n: nat, before: Bytes)
      requires n <= |frames| && frameMax >= 20
      reads this
    {
      Encodable(codec, frames[..n], frameMax) &&
      wire == before + EncodeAll(codec, frames[..n], frameMax)
    }

    method SendNext(ghost frames: seq<Frame>, ghost n: nat, ghost before: Bytes, frame: Frame) returns (status: int)
      requires Valid() && BodyFits(frame, frameMax)
      requires n < |frames| && frames[n] == frame && Progress(frames, n, before)
      modifies this`wire, this`events, outbound
      ensures Valid() && status <= 0
      ensures status == STATUS_OK ==> Progress(frames, n + 1, before)
      ensures WrotePrefix(before, wire, EncodeAll(codec, frames, frameMax))
      ensures Calm(old(events)) ==>
                Calm(events) && (status == STATUS_OK || events == [] || Encode(codec, frame, frameMax).Err?)
    {
      hide Encode, EncodeAll, WrotePrefix, Encodable, Calm;
      status := SendFrame(frame);
      if Encode(codec, frame, frameMax).Ok? {
        NextSent(codec, frames, n, frameMax, before, wire);
      } else {
        NothingSent(codec, frames, n, frameMax, before, wire);
      }
    }
  }
}
