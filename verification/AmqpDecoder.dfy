/** The inbound half of the connection object of amqp_connection.c: the incremental frame decoder. */
module AmqpDecoder {
  import opened Wrappers
  import opened AmqpData
  import opened AmqpFrames

  datatype Phase = Idle | Initial | Header | Body

  /** "AMQP", which opens a protocol header (section 4.2.2). */
  const AMQP_MAGIC: Bytes := [65, 77, 81, 80]

  // ----- The stream as the very first bytes of a connection -----

  /** The first eight bytes are collected before the frame buffer exists and only seven of them are
      copied into it, so byte 7 reads as the zero the fresh buffer holds. */
  function Seen(initial: bool, s: Bytes): Bytes {
    if initial && |s| >= 8 then s[7 := 0] else s
  }

  function FirstFrom(initial: bool, codec: Codec, frameMax: nat, s: Bytes): (r: First)
  {
    if !initial then FirstFrame(codec, frameMax, s)
    else if |s| < 8 then Incomplete
    else if s[..4] == AMQP_MAGIC then Whole(8, Some(ProtocolFrame(0, s[4], s[5], s[6], s[7])))
    else FirstFrame(codec, frameMax, Seen(true, s))
  }

  function ParseFrom(initial: bool, codec: Codec, frameMax: nat, s: Bytes): Parsed {
    if initial && |s| >= 8 && s[..4] == AMQP_MAGIC then
      Ahead([ProtocolFrame(0, s[4], s[5], s[6], s[7])], Parse(codec, frameMax, s[8..]))
    else if initial && |s| < 8 then Parsed([], Pending(s))
    else Parse(codec, frameMax, Seen(initial, s))
  }

  lemma SameTarget(initial: bool, h: Bytes, s: Bytes)
    requires HEADER_SIZE <= |h| <= |s| && h == s[..|h|]
    ensures Target(Seen(initial, s)) == Target(h)
  {
    assert s[3..7] == h[3..7];
    assert Seen(initial, s)[3..7] == s[3..7];
  }

  lemma SeenLength(initial: bool, s: Bytes)
    ensures |Seen(initial, s)| == |s| && (|s| < 8 ==> Seen(initial, s) == s)
  {
  }

  lemma SeenTarget(initial: bool, h: Bytes)
    requires HEADER_SIZE <= |h|
    ensures |Seen(initial, h)| == |h| && Target(Seen(initial, h)) == Target(h)
  {
    assert Seen(initial, h)[3..7] == h[3..7];
  }

  lemma SeenSplits(initial: bool, h: Bytes, received: Bytes, more: nat)
    requires if initial then |h| == 8 else |h| == HEADER_SIZE
    requires more <= |received|
    ensures Seen(initial, h + received) == Seen(initial, h) + received[..more] + received[more..]
  {
  }

  /** Once a buffer holds as many bytes as its header announces, it holds the first frame. */
  lemma SettledBody(initial: bool, codec: Codec, frameMax: nat, s: Bytes, unread: Bytes, rest: Bytes)
    requires |unread| >= 8 && |unread| == Target(unread) <= frameMax
    requires Seen(initial, s) == unread + rest && (initial ==> |s| >= 8 && s[..4] != AMQP_MAGIC)
    ensures FirstFrom(initial, codec, frameMax, s) ==
            if TooShort(unread[0], |unread|) then Undefined
            else match DecodeWhole(codec, unread)
              case Ok(f) => Whole(|unread|, f)
              case Err(e) => Bad(e)
  {
    assert unread[..|unread|] == unread;
    FirstFrameStable(codec, frameMax, unread, rest);
  }

  /** One step of the whole-stream parser. */
  lemma {:induction false} ParseFromStep(initial: bool, codec: Codec, frameMax: nat, s: Bytes)
    ensures ParseFrom(initial, codec, frameMax, s) ==
            match FirstFrom(initial, codec, frameMax, s)
            case Incomplete => Parsed([], Pending(Seen(initial, s)))
            case Bad(e) => Parsed([], Failed(e))
            case Undefined => Parsed([], OutsideContract)
            case Whole(n, frame) => Ahead(Deliver(frame), Parse(codec, frameMax, s[n..]))
  {
    if FirstFrom(initial, codec, frameMax, s).Whole? && initial {
      var n := FirstFrom(initial, codec, frameMax, s).size;
      assert Seen(initial, s)[n..] == s[n..];
    }
  }

  lemma SizeFrom(initial: bool, codec: Codec, frameMax: nat, s: Bytes)
    ensures var r := FirstFrom(initial, codec, frameMax, s); r.Whole? ==> 8 <= r.size <= |s|
  {
  }

  lemma ParseFromOrdinary(codec: Codec, frameMax: nat, s: Bytes)
    ensures ParseFrom(false, codec, frameMax, s) == Parse(codec, frameMax, s)
  {
  }

  /** Cutting the stream anywhere and parsing the unread rest with what comes later gives the same
      frames and the same end. */
  function ResumeFrom(initial: bool, codec: Codec, frameMax: nat, before: Parsed, more: Bytes): Parsed {
    match before.end
    case Pending(rest) => Ahead(before.frames, ParseFrom(initial, codec, frameMax, rest + more))
    case Failed(_) => before
    case OutsideContract => before
  }

  lemma {:induction false} ParseFromResumes(initial: bool, codec: Codec, frameMax: nat, a: Bytes, b: Bytes)
    ensures ParseFrom(initial, codec, frameMax, a + b)
         == ResumeFrom(initial && |a| < 8, codec, frameMax, ParseFrom(initial, codec, frameMax, a), b)
  {
    if initial && |a| >= 8 {
      InitialResumes(codec, frameMax, a, b);
    } else if !initial {
      ParseResumes(codec, frameMax, a, b);
    }
  }

  lemma {:induction false} InitialResumes(codec: Codec, frameMax: nat, a: Bytes, b: Bytes)
    requires |a| >= 8
    ensures ParseFrom(true, codec, frameMax, a + b)
         == ResumeFrom(false, codec, frameMax, ParseFrom(true, codec, frameMax, a), b)
  {
    assert (a + b)[..4] == a[..4];
    if a[..4] == AMQP_MAGIC {
      assert (a + b)[8..] == a[8..] + b;
      ParseResumes(codec, frameMax, a[8..], b);
      ResumeAhead(codec, frameMax, [ProtocolFrame(0, a[4], a[5], a[6], a[7])], Parse(codec, frameMax, a[8..]), b);
    } else {
      assert Seen(true, a + b) == Seen(true, a) + b;
      ParseResumes(codec, frameMax, Seen(true, a), b);
    }
  }

  function Concat(chunks: seq<Bytes>): Bytes {
    if chunks == [] then [] else chunks[0] + Concat(chunks[1..])
  }

  lemma EmptyConcat(chunks: seq<Bytes>)
    requires chunks == []
    ensures Concat(chunks) == []
  {
  }

  lemma ConcatSplit(chunks: seq<Bytes>)
    requires chunks != []
    ensures Concat(chunks) == chunks[0] + Concat(chunks[1..])
  {
  }

  /** The phase between calls, given whether the first eight bytes are still to come and how many
      bytes of a frame are there. */
  function PhaseOf(initial: bool, collected: nat): Phase {
    if initial then Initial
    else if collected == 0 then Idle
    else if collected < HEADER_SIZE then Header
    else Body
  }

  lemma AheadFailed(frames: seq<Frame>, more: seq<Frame>, status: int)
    ensures Ahead(frames, Parsed(more, Failed(status))) == Parsed(frames + more, Failed(status))
  {
  }

  class Decoder {
    const codec: Codec
    const frameMax: nat
    const headerBuffer: array<Octet>
    var phase: Phase
    var inbound: array<Octet>
    var inboundOffset: nat
    var targetSize: nat
    /** Channels that already own a buffer pool; the first page of a new pool is zeroed. */
    var pooledChannels: set<nat>

    ghost predicate Valid()
      reads this, headerBuffer, inbound
    {
      codec.Valid() && headerBuffer.Length == 8 &&
      inboundOffset < targetSize &&
      match phase
      case Initial => inbound == headerBuffer && targetSize == 8 && pooledChannels == {}
      case Idle => inbound == headerBuffer && targetSize == HEADER_SIZE && inboundOffset == 0
      case Header => inbound == headerBuffer && targetSize == HEADER_SIZE && inboundOffset > 0
      case Body => BodyStarted()
    }

    /** The frame header is known and the frame is collected in its own buffer. */
    ghost predicate BodyStarted()
      reads this, headerBuffer, inbound
    {
      codec.Valid() && headerBuffer.Length == 8 &&
      phase == Body && inbound != headerBuffer &&
      HEADER_SIZE <= inboundOffset <= targetSize == inbound.Length &&
      targetSize == Target(Unread()) <= frameMax
    }

    /** As many bytes are there as the phase asks for. */
    ghost predicate AtTarget()
      reads this, headerBuffer, inbound
    {
      codec.Valid() && headerBuffer.Length == 8 && inboundOffset == targetSize <= inbound.Length &&
      match phase
      case Initial => inbound == headerBuffer && targetSize == 8 && pooledChannels == {}
      case Idle => false
      case Header => inbound == headerBuffer && targetSize == HEADER_SIZE
      case Body => BodyStarted()
    }

    /** The bytes of the frame that is being received. */
    ghost function Unread(): Bytes
      requires inboundOffset <= inbound.Length
      reads this, inbound
    {
      inbound[..inboundOffset]
    }

    /** A connection as `amqp_new_connection` leaves it, with the frame size already tuned. */
    constructor (codec: Codec, frameMax: nat)
      requires codec.Valid()
      ensures Valid() && fresh(headerBuffer) && fresh(inbound)
      ensures this.codec == codec && this.frameMax == frameMax
      ensures phase == Initial && Unread() == []
    {
      this.codec, this.frameMax := codec, frameMax;
      var header := new Octet[8];
      headerBuffer, inbound := header, header;
      phase, inboundOffset, targetSize := Initial, 0, 8;
      pooledChannels := {};
    }

    method ReturnToIdle()
      requires headerBuffer.Length == 8 && codec.Valid()
      modifies this
      ensures Valid() && phase == Idle && Unread() == []
      ensures inbound == headerBuffer && pooledChannels == old(pooledChannels)
    {
      inbound := headerBuffer;
      inboundOffset := 0;
      targetSize := HEADER_SIZE;
      phase := Idle;
    }

    /** Copies as much input as still fits the current target. */
    method ConsumeData(received: Bytes) returns (consumed: nat, rest: Bytes)
      requires inboundOffset <= targetSize <= inbound.Length
      modifies this`inboundOffset, inbound
      ensures consumed <= |received| && rest == received[consumed..]
      ensures inboundOffset == old(inboundOffset) + consumed <= targetSize
      ensures rest != [] ==> inboundOffset == targetSize
      ensures consumed == 0 ==> inboundOffset == targetSize || received == []
      ensures inbound[..inboundOffset] == old(inbound[..inboundOffset]) + received[..consumed]
    {
      consumed := targetSize - inboundOffset;
      if |received| < consumed {
        consumed := |received|;
      }
      forall i | 0 <= i < consumed {
        inbound[inboundOffset + i] := received[i];
      }
      inboundOffset := inboundOffset + consumed;
      rest := received[consumed..];
    }

    /** `amqp_pool_alloc_bytes` on the channel's pool, which is created on first use. */
    method AllocBytes(channel: nat, amount: nat) returns (buffer: array<Octet>)
      modifies this`pooledChannels
      ensures fresh(buffer) && buffer.Length == amount
      ensures channel !in old(pooledChannels) ==> forall i :: 0 <= i < amount ==> buffer[i] == 0
    {
      if channel in pooledChannels {
        buffer := new Octet[amount];
      } else {
        buffer := new Octet[amount](_ => 0);
        pooledChannels := pooledChannels + {channel};
      }
    }

    /** The frame header is complete: sizes and allocates the frame buffer. */
    method StartBody() returns (status: int)
      requires headerBuffer.Length == 8 && inbound == headerBuffer && codec.Valid()
      requires if phase == Initial then inboundOffset == 8 && pooledChannels == {} else inboundOffset == HEADER_SIZE
      modifies this
      ensures inbound == old(inbound) || fresh(inbound)
      ensures var s := old(headerBuffer[..]);
              if Target(s) > frameMax then status == STATUS_BAD_AMQP_DATA
              else status == STATUS_OK && phase == Body && fresh(inbound) && inbound.Length == targetSize == Target(s) &&
                   inboundOffset == old(inboundOffset) && inboundOffset <= targetSize &&
                   inbound[..inboundOffset] == Seen(old(phase) == Initial, s[..inboundOffset])
    {
      ghost var s := headerBuffer[..];
      var channel := FromBe(inbound[1..3]);
      targetSize := FromBe(inbound[3..7]) + HEADER_SIZE + FOOTER_SIZE;
      assert inbound[3..7] == s[3..7];
      if frameMax < targetSize {
        return STATUS_BAD_AMQP_DATA;
      }
      inbound := AllocBytes(channel, targetSize);
      forall i | 0 <= i < HEADER_SIZE {
        inbound[i] := headerBuffer[i];
      }
      assert old(phase) == Initial ==> inbound[7] == 0;
      phase := Body;
      return STATUS_OK;
    }

    /** The whole frame is there: checks the end marker and decodes by type. */
    method FinishFrame() returns (status: int, frame: Option<Frame>)
      requires codec.Valid() && 8 <= targetSize <= inbound.Length
      requires !TooShort(inbound[0], targetSize)
      modifies this`pooledChannels
      ensures match DecodeWhole(codec, inbound[..targetSize])
              case Ok(f) => status == STATUS_OK && frame == f
              case Err(e) => status == e < 0
    {
      frame := None;
      var raw := inbound[..targetSize];
      DecodeErrorsNegative(codec, raw);
      if raw[targetSize - 1] != FRAME_END {
        return STATUS_BAD_AMQP_DATA, None;
      }
      var frameType := raw[0];
      var channel := FromBe(raw[1..3]);
      pooledChannels := pooledChannels + {channel};
      if frameType == FRAME_METHOD {
        var id := FromBe(raw[7..11]);
        match codec.decodeMethod(id, raw[11..targetSize - 1])
        case Err(e) => return e, None;
        case Ok(fields) => frame := Some(MethodFrame(channel, id, fields));
      } else if frameType == FRAME_HEADER {
        var classId := FromBe(raw[7..9]);
        var bodySize := FromBe(raw[11..19]);
        match codec.decodeProperties(classId, raw[19..targetSize - 1])
        case Err(e) => return e, None;
        case Ok(props) => frame := Some(HeaderFrame(channel, classId, bodySize, props));
      } else if frameType == FRAME_BODY {
        frame := Some(BodyFrame(channel, raw[7..targetSize - 1]));
      } else if frameType == FRAME_HEARTBEAT {
        frame := Some(HeartbeatFrame(channel));
      }
      return STATUS_OK, frame;
    }

    /** The HEADER case: opens the frame buffer and takes what input is left. */
    method CompleteHeader(received: Bytes, ghost s: Bytes) returns (status: int, more: nat, rest: Bytes)
      requires headerBuffer.Length == 8 && inbound == headerBuffer && codec.Valid()
      requires if phase == Initial then inboundOffset == 8 && pooledChannels == {} else inboundOffset == HEADER_SIZE
      requires s == Unread() + received
      modifies this
      ensures inbound == old(inbound) || fresh(inbound)
      ensures var t := Seen(old(phase) == Initial, s);
              if Target(t) > frameMax then status == STATUS_BAD_AMQP_DATA
              else status == STATUS_OK && BodyStarted() && fresh(inbound) && t == Unread() + rest &&
                   more == |received| - |rest| && (rest != [] ==> inboundOffset == targetSize) &&
                   inboundOffset == old(inboundOffset) + more
    {
      ghost var h, initial := Unread(), phase == Initial;
      more, rest := 0, received;
      assert headerBuffer[..][3..7] == h[3..7];
      SameTarget(initial, h, s);
      hide FromBe, Seen;
      status := StartBody();
      if status < 0 {
        return;
      }
      ghost var before := Unread();
      SeenTarget(initial, h);
      more, rest := ConsumeData(received);
      SeenSplits(initial, h, received, more);
      assert Unread()[3..7] == before[3..7];
    }

    /** The BODY case. */
    method CompleteBody(ghost initial: bool, ghost s: Bytes, ghost rest: Bytes) returns (status: int, frame: Option<Frame>)
      requires BodyStarted() && inboundOffset == targetSize
      requires Seen(initial, s) == Unread() + rest && (initial ==> |s| >= 8 && s[..4] != AMQP_MAGIC)
      requires FirstFrom(initial, codec, frameMax, s) != Undefined
      modifies this
      ensures inbound == headerBuffer || inbound == old(inbound)
      ensures match FirstFrom(initial, codec, frameMax, s)
              case Whole(n, f) =>
                status == STATUS_OK && frame == f && n == old(inboundOffset) && Valid() && phase == Idle && Unread() == []
              case Bad(e) => status == e < 0
              case _ => false
    {
      SettledBody(initial, codec, frameMax, s, Unread(), rest);
      status, frame := FinishFrame();
      if status == STATUS_OK {
        ReturnToIdle();
      }
    }

    /** What a call has to leave behind when `earlier` of the bytes `s` were collected before it. */
    ghost predicate Handled(initial: bool, s: Bytes, earlier: nat, res: int, frame: Option<Frame>)
      reads this, headerBuffer, inbound
    {
      match FirstFrom(initial, codec, frameMax, s)
      case Incomplete =>
        res == |s| - earlier && frame == None && Valid() && Unread() == Seen(initial, s) &&
        phase != Idle && (phase == Initial <==> initial && |s| < 8)
      case Whole(n, f) =>
        0 < res == n - earlier && frame == f && Valid() && phase == Idle && Unread() == []
      case Bad(e) => res == e < 0
      case Undefined => true
    }

    /** The `switch` of `amqp_handle_input`, entered with the current target reached. */
    method Dispatch(received: Bytes, ghost s: Bytes, ghost earlier: nat) returns (res: int, frame: Option<Frame>)
      requires AtTarget()
      requires s == Unread() + received && earlier < inboundOffset
      requires FirstFrom(phase == Initial, codec, frameMax, s) != Undefined
      modifies this
      ensures inbound == headerBuffer || inbound == old(inbound) || fresh(inbound)
      ensures if res < 0 then Handled(old(phase) == Initial, s, earlier, res, frame)
              else Handled(old(phase) == Initial, s, earlier, res + old(inboundOffset) - earlier, frame)
    {
      ghost var initial := phase == Initial;
      frame := None;
      res := 0;
      var rest := received;
      if phase == Initial && headerBuffer[..4] == AMQP_MAGIC {
        assert headerBuffer[..4] == s[..4];
        frame := Some(ProtocolFrame(0, headerBuffer[4], headerBuffer[5], headerBuffer[6], headerBuffer[7]));
        ReturnToIdle();
        return;
      }
      if phase != Body {
        var status;
        status, res, rest := CompleteHeader(rest, s);
        if status < 0 {
          return status, None;
        }
        if inboundOffset < targetSize {
          assert Seen(initial, s) == Unread();
          return;
        }
      }
      var status;
      status, frame := CompleteBody(initial, s, rest);
      if status < 0 {
        return status, None;
      }
    }

    /** `amqp_handle_input`.  One call takes input up to the end of one frame.  Its meaning is given
        by the first frame of the bytes collected so far followed by the new input. */
    method HandleInput(received: Bytes) returns (res: int, frame: Option<Frame>)
      requires Valid()
      requires FirstFrom(phase == Initial, codec, frameMax, Unread() + received) != Undefined
      modifies this, headerBuffer, inbound
      ensures inbound == headerBuffer || inbound == old(inbound) || fresh(inbound)
      ensures received == [] ==>
                res == 0 && frame == None && Valid() && phase == old(phase) && Unread() == old(Unread())
      ensures received != [] ==>
                Handled(old(phase) == Initial, old(Unread()) + received, |old(Unread())|, res, frame)
    {
      if received == [] {
        return 0, None;
      }
      ghost var s, before := Unread() + received, Unread();
      hide FirstFrom, Handled;
      var consumed, rest := Collect(received);
      if inboundOffset < targetSize {
        NothingYet(s, |before|, consumed);
        return consumed, None;
      }
      res, frame := Dispatch(rest, s, |before|);
      if res >= 0 {
        res := res + consumed;
      }
    }

    /** The opening of `amqp_handle_input`: leaves IDLE and takes input up to the current target. */
    method Collect(received: Bytes) returns (consumed: nat, rest: Bytes)
      requires Valid() && received != []
      modifies this, headerBuffer, inbound
      ensures consumed <= |received| && rest == received[consumed..] && inbound == old(inbound)
      ensures inboundOffset == old(inboundOffset) + consumed <= inbound.Length
      ensures Unread() + rest == old(Unread()) + received
      ensures phase == if old(phase) == Idle then Header else old(phase)
      ensures if inboundOffset < targetSize then rest == [] && Valid() else AtTarget() && old(inboundOffset) < inboundOffset
    {
      if phase == Idle {
        phase := Header;
      }
      ghost var before := Unread();
      consumed, rest := ConsumeData(received);
      assert Unread() + rest == before + received;
      assert |before| >= HEADER_SIZE ==> Unread()[3..7] == before[3..7];
    }

    /** Without a complete frame the call only stored its input. */
    lemma {:induction false} NothingYet(s: Bytes, earlier: nat, consumed: nat)
      requires Valid() && phase != Idle && s == Unread() && |s| == earlier + consumed
      ensures Handled(phase == Initial, s, earlier, consumed, None)
    {
    }

    /** What the whole-stream parser makes of the bytes collected so far and `more`. */
    ghost function View(more: Bytes): Parsed
      requires inboundOffset <= inbound.Length
      reads this, inbound
    {
      ParseFrom(phase == Initial, codec, frameMax, Unread() + more)
    }

    /** Between calls there is never a complete frame left in the decoder. */
    lemma {:induction false} NothingPending()
      requires Valid()
      ensures View([]) == Parsed([], Pending(Unread()))
    {
      assert Unread() + [] == Unread();
      ParseFromStep(phase == Initial, codec, frameMax, Unread());
    }

    /** `consume_one_frame`: one decoder call seen from the whole-stream parser. */
    method ConsumeOneFrame(received: Bytes) returns (res: int, frame: Option<Frame>)
      requires Valid() && received != [] && View(received).end != OutsideContract
      modifies this, headerBuffer, inbound
      ensures inbound == headerBuffer || inbound == old(inbound) || fresh(inbound)
      ensures if res < 0 then old(View(received)) == Parsed([], Failed(res))
              else 0 < res <= |received| && Valid() &&
                   old(View(received)) == Ahead(Deliver(frame), View(received[res..])) &&
                   Reached(old(phase) == Initial, |old(Unread())| + res)
    {
      ghost var s, initial, earlier := Unread() + received, phase == Initial, |Unread()|;
      assert s[earlier..] == received;
      ParseFromStep(initial, codec, frameMax, s);
      hide ParseFrom, Parse, FirstFrom, Handled, Reached;
      res, frame := HandleInput(received);
      BadHandled(initial, s, earlier, res, frame);
      if res >= 0 {
        HandledView(initial, s, earlier, received, res, frame);
      }
    }

    lemma {:induction false} BadHandled(initial: bool, s: Bytes, earlier: nat, res: int, frame: Option<Frame>)
      requires Handled(initial, s, earlier, res, frame) && earlier <= |s|
      ensures FirstFrom(initial, codec, frameMax, s).Bad? ==> res == FirstFrom(initial, codec, frameMax, s).status < 0
      ensures res < 0 ==> FirstFrom(initial, codec, frameMax, s).Bad? || FirstFrom(initial, codec, frameMax, s).Undefined?
    {
    }

    /** A successful call took its bytes off the stream and left the rest of the work. */
    lemma {:induction false} HandledView(initial: bool, s: Bytes, earlier: nat, received: Bytes, res: int, frame: Option<Frame>)
      requires Handled(initial, s, earlier, res, frame) && res >= 0 && received != []
      requires earlier < |s| && s[earlier..] == received && !FirstFrom(initial, codec, frameMax, s).Undefined?
      ensures 0 < res <= |received| && Valid() && Reached(initial, earlier + res)
      ensures ParseFrom(initial, codec, frameMax, s) == Ahead(Deliver(frame), View(received[res..]))
    {
      ParseFromStep(initial, codec, frameMax, s);
      SizeFrom(initial, codec, frameMax, s);
      if FirstFrom(initial, codec, frameMax, s).Incomplete? {
        SeenLength(initial, s);
        hide ParseFrom, Parse, FirstFrom, Seen;
        NothingPending();
        assert received[res..] == [];
        AheadEnds([], OutsideContract, View([]));
      } else {
        hide ParseFrom, Parse, FirstFrom;
        assert s[earlier + res..] == received[res..];
        assert Unread() + received[res..] == received[res..];
        ParseFromOrdinary(codec, frameMax, received[res..]);
      }
    }

    /** The feed loop of `amqp_try_recv` and `wait_frame_inner`: calls the decoder until the received
        bytes are used up.  The result is that of the whole-stream parser. */
    method Feed(chunk: Bytes) returns (status: int, frames: seq<Frame>)
      requires Valid() && View(chunk).end != OutsideContract
      modifies this, headerBuffer, inbound
      ensures inbound == headerBuffer || inbound == old(inbound) || fresh(inbound)
      ensures if status < 0 then old(View(chunk)) == Parsed(frames, Failed(status))
              else status == STATUS_OK && Valid() && old(View(chunk)) == Parsed(frames, Pending(Unread()))
      ensures status == STATUS_OK ==> Reached(old(phase) == Initial, |old(Unread())| + |chunk|)
    {
      frames := [];
      var rest := chunk;
      hide Ahead, ParseFrom, Parse;
      AheadEnds([], OutsideContract, View(rest));
      while rest != []
        invariant Valid() && |rest| <= |chunk|
        invariant inbound == headerBuffer || inbound == old(inbound) || fresh(inbound)
        invariant old(View(chunk)) == Ahead(frames, View(rest))
        invariant Reached(old(phase) == Initial, |old(Unread())| + |chunk| - |rest|)
        decreases |rest|
      {
        AheadEnds(frames, OutsideContract, View(rest));
        var res, frame := ConsumeOneFrame(rest);
        if res < 0 {
          AheadEnds(frames, Failed(res), Parsed([], Failed(res)));
          return res, frames;
        }
        rest := rest[res..];
        AheadTwice(frames, Deliver(frame), View(rest));
        frames := frames + Deliver(frame);
      }
      NothingPending();
      AheadEnds(frames, Pending(Unread()), View([]));
      return STATUS_OK, frames;
    }

    /** The decoder is past its first eight bytes unless `total` bytes are fewer, and until then it
        keeps them all. */
    ghost predicate Reached(initial: bool, total: nat)
      requires inboundOffset <= inbound.Length
      reads this, inbound
    {
      (phase == Initial <==> initial && total < 8) && (phase == Initial ==> |Unread()| == total)
    }

    /** One chunk of a stream of which `later` is still to come. */
    method FeedNext(chunk: Bytes, ghost later: Bytes) returns (status: int, frames: seq<Frame>)
      requires Valid() && View(chunk + later).end != OutsideContract
      modifies this, headerBuffer, inbound
      ensures inbound == headerBuffer || inbound == old(inbound) || fresh(inbound)
      ensures if status < 0 then old(View(chunk + later)) == Parsed(frames, Failed(status))
              else status == STATUS_OK && Valid() && old(View(chunk + later)) == Ahead(frames, View(later))
      ensures status == STATUS_OK ==> Reached(old(phase) == Initial, |old(Unread())| + |chunk|)
    {
      assert Unread() + (chunk + later) == Unread() + chunk + later;
      ParseFromResumes(phase == Initial, codec, frameMax, Unread() + chunk, later);
      hide ParseFrom;
      status, frames := Feed(chunk);
    }

    /** Any number of reads from the socket.  However the stream was cut into pieces, the frames, the
        bytes left over and the phase reached are those of the uncut stream. */
    method FeedAll(chunks: seq<Bytes>) returns (status: int, frames: seq<Frame>)
      requires Valid() && View(Concat(chunks)).end != OutsideContract
      modifies this, headerBuffer, inbound
      ensures if status < 0 then old(View(Concat(chunks))) == Parsed(frames, Failed(status))
              else status == STATUS_OK && Valid() && old(View(Concat(chunks))) == Parsed(frames, Pending(Unread())) &&
                   phase == PhaseOf(old(phase) == Initial && |old(Unread())| + |Concat(chunks)| < 8, |Unread()|)
    {
      frames := [];
      var rest := chunks;
      ghost var fed: nat := 0;
      hide Concat, ParseFrom, Parse, Ahead;
      AheadEnds([], OutsideContract, View(Concat(chunks)));
      while rest != []
        invariant Valid()
        invariant inbound == headerBuffer || inbound == old(inbound) || fresh(inbound)
        invariant old(View(Concat(chunks))) == Ahead(frames, View(Concat(rest)))
        invariant fed + |Concat(rest)| == |Concat(chunks)|
        invariant Reached(old(phase) == Initial, |old(Unread())| + fed)
        decreases |rest|
      {
        ghost var later := Concat(rest[1..]);
        ConcatSplit(rest);
        AheadEnds(frames, OutsideContract, View(rest[0] + later));
        var more;
        status, more := FeedNext(rest[0], later);
        if status < 0 {
          AheadFailed(frames, more, status);
          return status, frames + more;
        }
        AheadTwice(frames, more, View(later));
        frames := frames + more;
        fed := fed + |rest[0]|;
        rest := rest[1..];
      }
      EmptyConcat(rest);
      NothingPending();
      AheadEnds(frames, Pending(Unread()), View([]));
      return STATUS_OK, frames;
    }
  }
}
