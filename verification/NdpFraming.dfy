/**
 The byte stream between the storage plugin and the runtime: an 8-byte little-endian
 length, then the payload; a length of 2^64-1 with no payload is the error frame.

 Sends and receives are loops over system calls that may move fewer bytes than asked,
 be interrupted, or fail. The outcomes of those calls are a script the caller does not
 control, and every contract holds for every script.
 */
module NdpFraming {
  import opened Bytes

  const LENGTH_BYTES: nat := 8
  const UINT64_MAX: nat := 0xFFFF_FFFF_FFFF_FFFF

  ghost predicate Sendable(payload: bytes) {
    |payload| < UINT64_MAX
  }

  function Frame(payload: bytes): bytes {
    Le(|payload|, LENGTH_BYTES) + payload
  }

  function ErrorFrame(): bytes {
    Le(UINT64_MAX, LENGTH_BYTES)
  }

  /** A buffer holding exactly one length and the payload it announces. */
  predicate Complete(buffer: bytes) {
    |buffer| >= LENGTH_BYTES && |buffer| == LENGTH_BYTES + FromLe(buffer[..LENGTH_BYTES])
  }

  /** How many bytes a receiver asks for in total, given what it has so far. */
  function Wanted(buffer: bytes): nat {
    if |buffer| < LENGTH_BYTES then LENGTH_BYTES else LENGTH_BYTES + FromLe(buffer[..LENGTH_BYTES])
  }

  lemma FrameLength(payload: bytes)
    requires Sendable(payload)
    ensures |Frame(payload)| == LENGTH_BYTES + |payload|
    ensures FromLe(Frame(payload)[..LENGTH_BYTES]) == |payload|
    ensures Frame(payload)[LENGTH_BYTES..] == payload
    ensures Complete(Frame(payload))
  {
    PowersUsed();
    LeRoundTrip(|payload|, LENGTH_BYTES);
    assert Frame(payload)[..LENGTH_BYTES] == Le(|payload|, LENGTH_BYTES);
  }

  /** A receiver that stops as soon as its buffer is complete has read exactly the first frame. */
  lemma FirstFrame(buffer: bytes, rest: bytes, payload: bytes, tail: bytes)
    requires Sendable(payload)
    requires buffer + rest == Frame(payload) + tail
    requires Complete(buffer)
    ensures buffer == Frame(payload) && rest == tail && buffer[LENGTH_BYTES..] == payload
  {
    FrameLength(payload);
    var all := buffer + rest;
    assert all[..LENGTH_BYTES] == buffer[..LENGTH_BYTES];
    assert all[..LENGTH_BYTES] == Frame(payload)[..LENGTH_BYTES];
    assert all[..|buffer|] == buffer && all[|buffer|..] == rest;
    assert all[..|Frame(payload)|] == Frame(payload) && all[|Frame(payload)|..] == tail;
  }

  /** A receiver whose buffer is not complete can read on if it holds the beginning of a frame. */
  lemma CanReadOn(buffer: bytes, rest: bytes, payload: bytes, tail: bytes)
    requires Sendable(payload) && buffer + rest == Frame(payload) + tail
    requires |buffer| <= Wanted(buffer) && !Complete(buffer)
    ensures rest != [] && |buffer| + 1 <= Wanted(buffer)
  {
    FrameLength(payload);
    if |buffer| >= LENGTH_BYTES {
      assert (buffer + rest)[..LENGTH_BYTES] == buffer[..LENGTH_BYTES];
      assert (Frame(payload) + tail)[..LENGTH_BYTES] == Frame(payload)[..LENGTH_BYTES];
    }
  }

  /** No frame is a prefix of another, whatever follows them. */
  lemma FramesPrefixFree(p: bytes, x: bytes, q: bytes, y: bytes)
    requires Sendable(p) && Sendable(q)
    requires Frame(p) + x == Frame(q) + y
    ensures p == q && x == y
  {
    FrameLength(p);
    FirstFrame(Frame(p), x, q, y);
  }

  /** The error frame is no payload's length, unless the payload has exactly 2^64-1 bytes. */
  lemma ErrorFrameIff(payload: bytes)
    requires |payload| <= UINT64_MAX
    ensures Frame(payload)[..LENGTH_BYTES] == ErrorFrame() <==> |payload| == UINT64_MAX
  {
    PowersUsed();
    LeRoundTrip(|payload|, LENGTH_BYTES);
    LeRoundTrip(UINT64_MAX, LENGTH_BYTES);
    assert Frame(payload)[..LENGTH_BYTES] == Le(|payload|, LENGTH_BYTES);
  }

  lemma ErrorFrameLength()
    ensures |ErrorFrame()| == LENGTH_BYTES
    ensures FromLe(ErrorFrame()) == UINT64_MAX
  {
    PowersUsed();
    LeRoundTrip(UINT64_MAX, LENGTH_BYTES);
  }

  // ----- Sequences of messages -----

  function Frames(payloads: seq<bytes>): bytes {
    if payloads == [] then [] else Frame(payloads[0]) + Frames(payloads[1..])
  }

  /** Sending one more message extends the stream by one more frame. */
  lemma {:induction false} FramesSnoc(payloads: seq<bytes>, payload: bytes)
    ensures Frames(payloads + [payload]) == Frames(payloads) + Frame(payload)
  {
    if payloads == [] {
      assert [payload][1..] == [];
    } else {
      FramesSnoc(payloads[1..], payload);
      assert (payloads + [payload])[1..] == payloads[1..] + [payload];
    }
  }

  /** The stream before each receive: `received[i]` takes it from `streams[i]` to `streams[i + 1]`. */
  ghost predicate ReceiveRun(streams: seq<bytes>, received: seq<bytes>) {
    && |streams| == |received| + 1
    && forall i | 0 <= i < |received| :: Sendable(received[i]) && streams[i] == Frame(received[i]) + streams[i + 1]
  }

  /** Any number of successful receives recovers the payloads sent, in order, and nothing else. */
  lemma {:induction false} ReceivesWhatWasSent(payloads: seq<bytes>, tail: bytes, streams: seq<bytes>, received: seq<bytes>)
    requires forall i | 0 <= i < |payloads| :: Sendable(payloads[i])
    requires ReceiveRun(streams, received)
    requires streams[0] == Frames(payloads) + tail
    requires |received| <= |payloads|
    ensures received == payloads[..|received|]
    ensures streams[|received|] == Frames(payloads[|received|..]) + tail
  {
    if received == [] {
      assert payloads[0..] == payloads;
    } else {
      var rest := Frames(payloads[1..]) + tail;
      assert Frames(payloads) + tail == Frame(payloads[0]) + rest;
      FramesPrefixFree(received[0], streams[1], payloads[0], rest);
      ReceivesWhatWasSent(payloads[1..], tail, streams[1..], received[1..]);
      assert received == [received[0]] + received[1..];
      assert payloads[..|received|] == [payloads[0]] + payloads[1..][..|received| - 1];
      assert payloads[1..][|received| - 1..] == payloads[|received|..];
    }
  }

  // ----- The asynchronous receive chain -----

  /** What has been read of the current message, what is still in the stream, and the messages completed. */
  datatype Chain = Chain(buffer: bytes, rest: bytes, messages: seq<bytes>)

  /** A read delivers any number of bytes that are there and still wanted. */
  predicate CanRead(ch: Chain, count: nat) {
    count <= |ch.rest| && |ch.buffer| + count <= Wanted(ch.buffer)
  }

  /** A message that is complete after a read is handed over and the chain starts afresh. */
  function Read(ch: Chain, count: nat): Chain
    requires CanRead(ch, count)
  {
    var buffer := ch.buffer + ch.rest[..count];
    if Complete(buffer) then Chain([], ch.rest[count..], ch.messages + [buffer[LENGTH_BYTES..]])
    else Chain(buffer, ch.rest[count..], ch.messages)
  }

  /** Every read of the sequence delivers a number of bytes it may deliver. */
  ghost predicate CanReadAll(ch: Chain, counts: seq<nat>)
    decreases |counts|
  {
    counts != [] ==> CanRead(ch, counts[0]) && CanReadAll(Read(ch, counts[0]), counts[1..])
  }

  ghost function ReadAll(ch: Chain, counts: seq<nat>): Chain
    requires CanReadAll(ch, counts)
    decreases |counts|
  {
    if counts == [] then ch else ReadAll(Read(ch, counts[0]), counts[1..])
  }

  /** The messages completed are the first payloads, and what is left are the frames of the others. */
  ghost predicate Decodes(ch: Chain, payloads: seq<bytes>, tail: bytes) {
    var k := |ch.messages|;
    if k <= |payloads| then ch.messages == payloads[..k] && ch.buffer + ch.rest == Frames(payloads[k..]) + tail
    else payloads <= ch.messages
  }

  lemma ReadDecodes(ch: Chain, count: nat, payloads: seq<bytes>, tail: bytes)
    requires forall i | 0 <= i < |payloads| :: Sendable(payloads[i])
    requires CanRead(ch, count) && Decodes(ch, payloads, tail)
    ensures Decodes(Read(ch, count), payloads, tail)
  {
    var buffer, rest, k := ch.buffer + ch.rest[..count], ch.rest[count..], |ch.messages|;
    assert buffer + rest == ch.buffer + ch.rest;
    if Complete(buffer) && k < |payloads| {
      assert payloads[k..] == [payloads[k]] + payloads[k + 1..];
      var others := Frames(payloads[k + 1..]) + tail;
      assert Frames(payloads[k..]) + tail == Frame(payloads[k]) + others;
      FirstFrame(buffer, rest, payloads[k], others);
      assert payloads[..k + 1] == payloads[..k] + [payloads[k]];
      assert [] + rest == rest;
    } else if Complete(buffer) && k == |payloads| {
      assert payloads[..k] == payloads;
    }
  }

  /**
   However the reads cut the stream up, the chain completes the payloads that were sent, in
   order, and leaves the frames of the rest.
   */
  lemma {:induction false} ChainReceivesWhatWasSent(ch: Chain, counts: seq<nat>, payloads: seq<bytes>, tail: bytes)
    requires forall i | 0 <= i < |payloads| :: Sendable(payloads[i])
    requires CanReadAll(ch, counts) && Decodes(ch, payloads, tail)
    ensures Decodes(ReadAll(ch, counts), payloads, tail)
    decreases |counts|
  {
    if counts != [] {
      ReadDecodes(ch, counts[0], payloads, tail);
      ChainReceivesWhatWasSent(Read(ch, counts[0]), counts[1..], payloads, tail);
    }
  }

  lemma ChainStartsDecoding(payloads: seq<bytes>, tail: bytes)
    ensures Decodes(Chain([], Frames(payloads) + tail, []), payloads, tail)
  {
    assert payloads[0..] == payloads && payloads[..0] == [];
    assert [] + (Frames(payloads) + tail) == Frames(payloads) + tail;
  }

  /** A message is handed over as soon as it is complete, and no read goes past it. */
  predicate Partial(ch: Chain) { !Complete(ch.buffer) && |ch.buffer| <= Wanted(ch.buffer) }

  lemma ReadKeepsPartial(ch: Chain, count: nat)
    requires CanRead(ch, count)
    ensures Partial(Read(ch, count))
  {
    var buffer := ch.buffer + ch.rest[..count];
    if |ch.buffer| >= LENGTH_BYTES {
      assert buffer[..LENGTH_BYTES] == ch.buffer[..LENGTH_BYTES];
    }
  }

  /** As long as payloads are left the chain can read on, so reading to the end of their frames completes them all. */
  lemma ChainCompletesAll(ch: Chain, payloads: seq<bytes>, tail: bytes)
    requires forall i | 0 <= i < |payloads| :: Sendable(payloads[i])
    requires Decodes(ch, payloads, tail) && Partial(ch)
    ensures |ch.messages| < |payloads| ==> ch.rest != [] && CanRead(ch, 1)
    ensures ch.rest == [] ==> payloads <= ch.messages
  {
    var k := |ch.messages|;
    if k < |payloads| {
      var others := Frames(payloads[k + 1..]) + tail;
      assert payloads[k..][1..] == payloads[k + 1..];
      assert Frames(payloads[k..]) + tail == Frame(payloads[k]) + others;
      CanReadOn(ch.buffer, ch.rest, payloads[k], others);
    } else {
      assert payloads[..|payloads|] == payloads;
    }
  }

  lemma {:induction false} ReadAllKeepsPartial(ch: Chain, counts: seq<nat>)
    requires Partial(ch) && CanReadAll(ch, counts)
    ensures Partial(ReadAll(ch, counts))
    decreases |counts|
  {
    if counts != [] {
      ReadKeepsPartial(ch, counts[0]);
      ReadAllKeepsPartial(Read(ch, counts[0]), counts[1..]);
    }
  }

  /**
   A chain started on a stream of frames: whatever numbers of bytes its reads deliver, it has
   completed the first payloads and no others, and all of them once the stream is read.
   */
  lemma FreshChainReceives(payloads: seq<bytes>, tail: bytes, counts: seq<nat>)
    requires forall i | 0 <= i < |payloads| :: Sendable(payloads[i])
    requires CanReadAll(Chain([], Frames(payloads) + tail, []), counts)
    ensures var end := ReadAll(Chain([], Frames(payloads) + tail, []), counts);
            && Decodes(end, payloads, tail) && Partial(end)
            && (|end.messages| < |payloads| ==> CanRead(end, 1))
            && (end.rest == [] ==> payloads <= end.messages)
  {
    var begun := Chain([], Frames(payloads) + tail, []);
    ChainStartsDecoding(payloads, tail);
    ChainReceivesWhatWasSent(begun, counts, payloads, tail);
    ReadAllKeepsPartial(begun, counts);
    ChainCompletesAll(ReadAll(begun, counts), payloads, tail);
  }

  /** The connection's receive side: a read of the size, then a read of as many bytes, over and over. */
  class AsyncReceiver {
    var inFlight: bytes
    var sizeBytes: bytes
    var nextMsgSize: nat
    var nextMsg: bytes
    var stored: seq<bytes>

    ghost predicate Valid()
      reads this
    {
      && |sizeBytes| <= LENGTH_BYTES
      && (|sizeBytes| < LENGTH_BYTES ==> nextMsg == [])
      && (|sizeBytes| == LENGTH_BYTES ==> nextMsgSize == FromLe(sizeBytes) && |nextMsg| < nextMsgSize)
    }

    ghost function State(): Chain
      reads this
    {
      Chain(sizeBytes + nextMsg, inFlight, stored)
    }

    constructor (stream: bytes)
      ensures Valid() && State() == Chain([], stream, [])
    {
      inFlight, sizeBytes, nextMsgSize, nextMsg, stored := stream, [], 0, [], [];
      new;
      assert sizeBytes + nextMsg == [];
    }

    /** The kernel delivers `count` bytes to the read that is under way; a read that is full runs its handler. */
    method Deliver(count: nat)
      requires Valid() && CanRead(State(), count)
      modifies this
      ensures Valid() && State() == Read(old(State()), count)
    {
      var got := inFlight[..count];
      ghost var buffer := sizeBytes + nextMsg + got;
      inFlight := inFlight[count..];
      if |sizeBytes| < LENGTH_BYTES {
        assert buffer == sizeBytes + got;
        sizeBytes := sizeBytes + got;
        if |sizeBytes| == LENGTH_BYTES {
          assert buffer[..LENGTH_BYTES] == buffer && buffer[LENGTH_BYTES..] == [];
          RecvMsgContent();
        }
        assert sizeBytes + nextMsg == sizeBytes;
      } else {
        assert (sizeBytes + nextMsg)[..LENGTH_BYTES] == sizeBytes && buffer[..LENGTH_BYTES] == sizeBytes;
        nextMsg := nextMsg + got;
        assert buffer == sizeBytes + nextMsg;
        if |nextMsg| == nextMsgSize {
          OnReceivable();
        }
      }
    }

    /** The size is there: size the message and read it; one without bytes is complete at once. */
    method RecvMsgContent()
      requires |sizeBytes| == LENGTH_BYTES && nextMsg == []
      modifies this
      ensures Valid() && inFlight == old(inFlight)
      ensures if Complete(old(sizeBytes)) then sizeBytes == [] && nextMsg == [] && stored == old(stored) + [[]]
              else sizeBytes == old(sizeBytes) && nextMsg == [] && stored == old(stored)
    {
      assert sizeBytes[..LENGTH_BYTES] == sizeBytes;
      nextMsgSize := FromLe(sizeBytes);
      if nextMsgSize == 0 {
        OnReceivable();
      }
    }

    /** The message is there: store it and start over with the next size. */
    method OnReceivable()
      modifies this
      ensures Valid() && inFlight == old(inFlight) && stored == old(stored) + [old(nextMsg)] && sizeBytes == [] && nextMsg == []
    {
      stored := stored + [nextMsg];
      sizeBytes, nextMsg := [], [];
    }
  }

  // ----- The socket loops -----

  lemma TakeFront(data: bytes, stream: bytes, n: nat)
    requires n <= |stream|
    ensures (data + stream[..n]) + stream[n..] == data + stream
  {
    assert stream[..n] + stream[n..] == stream;
  }

  datatype IoResult = Interrupted | WouldBlock | Moved(count: nat) | IoError

  /** `Blocked` means the script ended while the call was still waiting for the kernel. */
  datatype Status = Done | Blocked | Threw

  datatype Received = Message(payload: bytes) | ErrorReceived | NotYet | RecvThrew

  predicate CanRetry(r: IoResult, sending: bool) {
    r.Interrupted? || (r.WouldBlock? && !sending)
  }

  /** No call in the script fails for good. */
  ghost predicate Benign(script: seq<IoResult>, sending: bool) {
    forall i | 0 <= i < |script| :: script[i].Moved? || CanRetry(script[i], sending)
  }

  /** The number of calls that move at least one byte. */
  ghost function Moves(script: seq<IoResult>): nat {
    if script == [] then 0
    else Moves(script[1..]) + if script[0].Moved? && script[0].count > 0 then 1 else 0
  }

  /** The moves that transferring `size` bytes uses up at most; even an empty transfer makes one call. */
  function Calls(size: nat): nat {
    if size == 0 then 1 else size
  }

  /** The same for a whole message, and for several. */
  function Cost(payload: bytes): nat {
    LENGTH_BYTES + Calls(|payload|)
  }

  function CostAll(payloads: seq<bytes>): nat {
    if payloads == [] then 0 else Cost(payloads[0]) + CostAll(payloads[1..])
  }

  /** With bytes and moves enough for it, what the length in front of the stream announces is received. */
  ghost predicate Arrives(stream: bytes, moves: nat, r: Received) {
    |stream| >= LENGTH_BYTES && moves >= LENGTH_BYTES ==>
      var size := FromLe(stream[..LENGTH_BYTES]);
      if size == UINT64_MAX then r.ErrorReceived?
      else |stream| >= LENGTH_BYTES + size && moves >= LENGTH_BYTES + Calls(size) ==>
             r == Message(stream[LENGTH_BYTES..LENGTH_BYTES + size])
  }

  lemma FrameArrives(payload: bytes, others: bytes, moves: nat, r: Received)
    requires Sendable(payload) && moves >= Cost(payload)
    requires Arrives(Frame(payload) + others, moves, r)
    ensures r == Message(payload)
  {
    FrameLength(payload);
    var stream := Frame(payload) + others;
    assert stream[..LENGTH_BYTES] == Frame(payload)[..LENGTH_BYTES];
    assert stream[LENGTH_BYTES..LENGTH_BYTES + |payload|] == Frame(payload)[LENGTH_BYTES..];
  }

  /** One direction of a connected socket: the bytes sent and not yet received. */
  class Stream {
    var inFlight: bytes
    var script: seq<IoResult>

    constructor (outcomes: seq<IoResult>)
      ensures inFlight == [] && script == outcomes
    {
      inFlight, script := [], outcomes;
    }

    method RawSendBytes(data: bytes) returns (s: Status)
      modifies this
      ensures exists k | 0 <= k <= |data| :: inFlight == old(inFlight) + data[..k]
      ensures s.Done? ==> inFlight == old(inFlight) + data
      ensures s.Blocked? ==> script == []
      ensures s.Threw? ==> !Benign(old(script), true)
      ensures Benign(old(script), true) ==> Benign(script, true)
      ensures Benign(old(script), true) && old(script) != [] && Moves(old(script)) >= |data| ==> s.Done?
      ensures s.Done? ==> Moves(old(script)) <= Moves(script) + Calls(|data|)
    {
      var sent, first := 0, true;
      while first || sent < |data|
        invariant 0 <= sent <= |data|
        invariant inFlight == old(inFlight) + data[..sent]
        invariant Benign(old(script), true) ==> Benign(script, true)
        invariant sent < |data| ==> Moves(old(script)) <= Moves(script) + sent
        invariant Moves(old(script)) <= Moves(script) + if first then 0 else Calls(|data|)
        invariant first ==> script == old(script) && sent == 0
        decreases |script|, first
      {
        first := false;
        if script == [] {
          return Blocked;
        }
        var r := script[0];
        script := script[1..];
        if CanRetry(r, true) {
          continue;
        }
        if !r.Moved? {
          return Threw;
        }
        var n := if r.count < |data| - sent then r.count else |data| - sent;
        inFlight := inFlight + data[sent..sent + n];
        assert data[..sent] + data[sent..sent + n] == data[..sent + n];
        sent := sent + n;
      }
      assert data[..|data|] == data;
      s := Done;
    }

    method RawRecvBytes(size: nat) returns (s: Status, data: bytes)
      modifies this
      ensures |data| <= size && old(inFlight) == data + inFlight
      ensures s.Done? ==> |data| == size
      ensures s.Blocked? ==> script == []
      ensures s.Threw? ==> !Benign(old(script), false)
      ensures Benign(old(script), false) ==> Benign(script, false)
      ensures Benign(old(script), false) && old(script) != [] && Moves(old(script)) >= size && |old(inFlight)| >= size
              ==> s.Done?
      ensures s.Done? ==> Moves(old(script)) <= Moves(script) + Calls(size)
    {
      data := [];
      var first := true;
      while first || |data| < size
        invariant |data| <= size
        invariant old(inFlight) == data + inFlight
        invariant Benign(old(script), false) ==> Benign(script, false)
        invariant |data| < size <= |old(inFlight)| ==> Moves(old(script)) <= Moves(script) + |data|
        invariant size <= |old(inFlight)| ==> Moves(old(script)) <= Moves(script) + if first then 0 else Calls(size)
        invariant first ==> script == old(script) && data == []
        decreases |script|, first
      {
        first := false;
        if script == [] {
          return Blocked, data;
        }
        var r := script[0];
        script := script[1..];
        if CanRetry(r, false) {
          continue;
        }
        if !r.Moved? {
          return Threw, data;
        }
        var room := if |inFlight| < size - |data| then |inFlight| else size - |data|;
        var n := if r.count < room then r.count else room;
        TakeFront(data, inFlight, n);
        data, inFlight := data + inFlight[..n], inFlight[n..];
      }
      s := Done;
    }

    method SendError() returns (s: Status)
      modifies this
      ensures s.Done? ==> inFlight == old(inFlight) + ErrorFrame()
      ensures s.Blocked? ==> script == []
      ensures s.Threw? ==> !Benign(old(script), true)
      ensures Benign(old(script), true) && Moves(old(script)) >= LENGTH_BYTES ==> s.Done?
    {
      ErrorFrameLength();
      s := RawSendBytes(ErrorFrame());
    }

    method SendMessage(payload: bytes) returns (s: Status)
      requires Sendable(payload)
      modifies this
      ensures exists k | 0 <= k <= |Frame(payload)| :: inFlight == old(inFlight) + Frame(payload)[..k]
      ensures s.Done? ==> inFlight == old(inFlight) + Frame(payload)
      ensures s.Blocked? ==> script == []
      ensures s.Threw? ==> !Benign(old(script), true)
      ensures Benign(old(script), true) ==> Benign(script, true)
      ensures Benign(old(script), true) && Moves(old(script)) >= Cost(payload) ==> s.Done?
      ensures s.Done? ==> Moves(old(script)) <= Moves(script) + Cost(payload)
    {
      var header := Le(|payload|, LENGTH_BYTES);
      var before := inFlight;
      s := RawSendBytes(header);
      if !s.Done? {
        ghost var k :| 0 <= k <= |header| && inFlight == before + header[..k];
        assert Frame(payload)[..k] == header[..k];
        return;
      }
      s := RawSendBytes(payload);
      ghost var k :| 0 <= k <= |payload| && inFlight == before + header + payload[..k];
      assert Frame(payload)[..|header| + k] == header + payload[..k];
      assert before + header + payload[..k] == before + (header + payload[..k]);
    }

    method RecvMessageVector() returns (r: Received)
      modifies this
      ensures r.Message? ==> Sendable(r.payload) && old(inFlight) == Frame(r.payload) + inFlight
      ensures r.ErrorReceived? ==> old(inFlight) == ErrorFrame() + inFlight
      ensures r.NotYet? ==> script == []
      ensures exists k | 0 <= k <= |old(inFlight)| :: inFlight == old(inFlight)[k..]
      ensures r.RecvThrew? ==> !Benign(old(script), false)
      ensures Benign(old(script), false) ==> Benign(script, false)
      ensures Benign(old(script), false) ==> Arrives(old(inFlight), Moves(old(script)), r)
      ensures r.Message? ==> Moves(old(script)) <= Moves(script) + Cost(r.payload)
    {
      ghost var start := inFlight;
      var s, header := RawRecvBytes(LENGTH_BYTES);
      assert inFlight == start[|header|..] && header == start[..|header|];
      if !s.Done? {
        return if s.Blocked? then NotYet else RecvThrew;
      }
      var size := FromLe(header);
      PowersUsed();
      FromLeRoundTrip(header);
      if size == UINT64_MAX {
        return ErrorReceived;
      }
      var data;
      s, data := RawRecvBytes(size);
      assert start == header + (data + inFlight);
      assert inFlight == start[|header| + |data|..] && data == start[|header|..|header| + |data|];
      if !s.Done? {
        return if s.Blocked? then NotYet else RecvThrew;
      }
      assert Frame(data) == header + data;
      assert start == Frame(data) + inFlight;
      r := Message(data);
    }
  }

  // ----- A sender and a receiver -----

  /** Sends message after message; a send that does not complete leaves a beginning of their frames. */
  method SendAll(stream: Stream, payloads: seq<bytes>) returns (s: Status)
    requires forall i | 0 <= i < |payloads| :: Sendable(payloads[i])
    modifies stream
    ensures s.Done? ==> stream.inFlight == old(stream.inFlight) + Frames(payloads)
    ensures exists k | 0 <= k <= |Frames(payloads)| :: stream.inFlight == old(stream.inFlight) + Frames(payloads)[..k]
    ensures s.Threw? ==> !Benign(old(stream.script), true)
    ensures Benign(old(stream.script), true) && Moves(old(stream.script)) >= CostAll(payloads) ==>
              s.Done? && Benign(stream.script, true)
    ensures s.Done? ==> Moves(old(stream.script)) <= Moves(stream.script) + CostAll(payloads)
  {
    ghost var start := stream.inFlight;
    assert payloads[..|payloads|] == payloads && payloads[..0] == [] && start + Frames([]) == start && payloads[0..] == payloads;
    for i := 0 to |payloads|
      invariant stream.inFlight == start + Frames(payloads[..i])
      invariant Benign(old(stream.script), true) ==> Benign(stream.script, true)
      invariant Moves(old(stream.script)) + CostAll(payloads[i..]) <= Moves(stream.script) + CostAll(payloads)
    {
      CostStep(payloads, i);
      ghost var sent := Frames(payloads[..i]);
      s := stream.SendMessage(payloads[i]);
      if !s.Done? {
        ghost var k :| 0 <= k <= |Frame(payloads[i])| && stream.inFlight == start + sent + Frame(payloads[i])[..k];
        PartOfFrames(start, payloads, i, k);
        return;
      }
      FramesGrow(start, payloads, i);
    }
    assert Frames(payloads)[..|Frames(payloads)|] == Frames(payloads);
    s := Done;
  }

  lemma CostStep(payloads: seq<bytes>, i: nat)
    requires i < |payloads|
    ensures CostAll(payloads[i..]) == Cost(payloads[i]) + CostAll(payloads[i + 1..])
  {
    assert payloads[i..][1..] == payloads[i + 1..];
  }

  lemma FramesGrow(start: bytes, payloads: seq<bytes>, i: nat)
    requires i < |payloads|
    ensures start + Frames(payloads[..i]) + Frame(payloads[i]) == start + Frames(payloads[..i + 1])
  {
    assert payloads[..i + 1] == payloads[..i] + [payloads[i]];
    FramesSnoc(payloads[..i], payloads[i]);
    assert start + (Frames(payloads[..i]) + Frame(payloads[i])) == start + Frames(payloads[..i]) + Frame(payloads[i]);
  }

  lemma PartOfFrames(start: bytes, payloads: seq<bytes>, i: nat, k: nat)
    requires i < |payloads| && k <= |Frame(payloads[i])|
    ensures var n := |Frames(payloads[..i])| + k;
            n <= |Frames(payloads)|
            && start + Frames(payloads[..i]) + Frame(payloads[i])[..k] == start + Frames(payloads)[..n]
  {
    FramesSplit(payloads, i);
    var sent, part := Frames(payloads[..i]), Frame(payloads[i])[..k];
    assert Frames(payloads)[..|sent| + k] == sent + part;
    assert start + (sent + part) == start + sent + part;
  }

  lemma {:induction false} FramesConcat(x: seq<bytes>, y: seq<bytes>)
    ensures Frames(x + y) == Frames(x) + Frames(y)
  {
    if x == [] {
      assert x + y == y && [] + Frames(y) == Frames(y);
    } else {
      FramesConcat(x[1..], y);
      assert (x + y)[1..] == x[1..] + y && (x + y)[0] == x[0];
      Regroup(Frame(x[0]), Frames(x[1..]), Frames(y));
    }
  }

  lemma Regroup(a: bytes, b: bytes, c: bytes)
    ensures a + (b + c) == a + b + c
  {
  }

  /** The frames up to i, the one at i, and the others. */
  lemma FramesSplit(payloads: seq<bytes>, i: nat)
    requires i < |payloads|
    ensures Frames(payloads) == Frames(payloads[..i]) + Frame(payloads[i]) + Frames(payloads[i + 1..])
  {
    var front, back := payloads[..i], payloads[i + 1..];
    Rejoin(payloads, i);
    FramesConcat(front + [payloads[i]], back);
    FramesSnoc(front, payloads[i]);
  }

  lemma Rejoin<T>(s: seq<T>, i: nat)
    requires i < |s|
    ensures s[..i] + [s[i]] + s[i + 1..] == s
  {
  }

  /** No payload's frame begins like the error frame. */
  lemma NotAnError(payload: bytes, tail: bytes, rest: bytes)
    requires Sendable(payload)
    ensures Frame(payload) + tail != ErrorFrame() + rest
  {
    ErrorFrameIff(payload);
    ErrorFrameLength();
    FrameLength(payload);
    assert (Frame(payload) + tail)[..LENGTH_BYTES] == Frame(payload)[..LENGTH_BYTES];
    assert (ErrorFrame() + rest)[..LENGTH_BYTES] == ErrorFrame();
  }

  /**
   Receives `count` messages, or as many as come before a receive does not complete. They are
   the payloads sent, in order; the rest of the stream is untouched; none is taken for an error.
   */
  method ReceiveAll(stream: Stream, count: nat, ghost payloads: seq<bytes>, ghost tail: bytes) returns (received: seq<bytes>, last: Received)
    requires forall i | 0 <= i < |payloads| :: Sendable(payloads[i])
    requires stream.inFlight == Frames(payloads) + tail && count <= |payloads|
    modifies stream
    ensures |received| <= count && received == payloads[..|received|]
    ensures |received| == count ==> stream.inFlight == Frames(payloads[count..]) + tail
    ensures |received| < count ==> last.NotYet? || last.RecvThrew?
    ensures Benign(old(stream.script), false) ==> !last.RecvThrew?
    ensures Benign(old(stream.script), false) && Moves(old(stream.script)) >= CostAll(payloads) ==> |received| == count
  {
    received, last := [], NotYet;
    assert payloads[0..] == payloads;
    while |received| < count
      invariant |received| <= count && received == payloads[..|received|]
      invariant stream.inFlight == Frames(payloads[|received|..]) + tail
      invariant Benign(old(stream.script), false) ==> Benign(stream.script, false) && !last.RecvThrew?
      invariant Moves(old(stream.script)) + CostAll(payloads[|received|..]) <= Moves(stream.script) + CostAll(payloads)
      decreases count - |received|
    {
      ghost var k := |received|;
      FramesFrom(payloads, k, tail);
      CostStep(payloads, k);
      last := ReceiveOne(stream, payloads[k], Frames(payloads[k + 1..]) + tail);
      if !last.Message? {
        return;
      }
      received := received + [last.payload];
    }
  }

  lemma FramesFrom(payloads: seq<bytes>, k: nat, tail: bytes)
    requires k < |payloads|
    ensures Frames(payloads[k..]) + tail == Frame(payloads[k]) + (Frames(payloads[k + 1..]) + tail)
  {
    assert payloads[k..][1..] == payloads[k + 1..];
  }

  /** A receive that completes on a stream that begins with a payload's frame gives that payload and takes just that frame. */
  method ReceiveOne(stream: Stream, ghost payload: bytes, ghost others: bytes) returns (r: Received)
    requires Sendable(payload) && stream.inFlight == Frame(payload) + others
    modifies stream
    ensures !r.ErrorReceived?
    ensures r.Message? ==> r.payload == payload && stream.inFlight == others
    ensures r.RecvThrew? ==> !Benign(old(stream.script), false)
    ensures Benign(old(stream.script), false) ==> Benign(stream.script, false)
    ensures Benign(old(stream.script), false) && Moves(old(stream.script)) >= Cost(payload) ==> r == Message(payload)
    ensures r.Message? ==> Moves(old(stream.script)) <= Moves(stream.script) + Cost(payload)
  {
    r := stream.RecvMessageVector();
    if Benign(old(stream.script), false) && Moves(old(stream.script)) >= Cost(payload) {
      FrameArrives(payload, others, Moves(old(stream.script)), r);
    }
    NotAnError(payload, others, stream.inFlight);
    if r.Message? {
      FramesPrefixFree(r.payload, stream.inFlight, payload, others);
    }
  }

  /** Both ends together: what is sent on an empty stream is what is received, under every script of outcomes. */
  method SendThenReceive(stream: Stream, payloads: seq<bytes>) returns (s: Status, received: seq<bytes>)
    requires stream.inFlight == [] && forall i | 0 <= i < |payloads| :: Sendable(payloads[i])
    modifies stream
    ensures s.Done? ==> received <= payloads
    ensures s.Done? && |received| == |payloads| ==> received == payloads && stream.inFlight == []
    ensures s.Threw? ==> !Benign(old(stream.script), true)
    ensures Benign(old(stream.script), true) && Moves(old(stream.script)) >= 2 * CostAll(payloads) ==>
              s.Done? && received == payloads && stream.inFlight == []
  {
    received := [];
    s := SendAll(stream, payloads);
    if s.Done? {
      assert [] + Frames(payloads) == Frames(payloads) + [];
      var last;
      received, last := ReceiveAll(stream, |payloads|, payloads, []);
      assert payloads[|payloads|..] == [] && Frames([]) + [] == [];
    }
  }
}
