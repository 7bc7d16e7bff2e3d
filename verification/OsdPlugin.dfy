/**
 The storage plugin's entry point: it forwards an offload request to the runtime and
 serves the runtime's reads and writes until the runtime says it is done.

 What the runtime sends, and how the object store and the socket treat each operation,
 is a script the plugin does not control. Running out of script is the poll timeout.
 */
module OsdPlugin {
  import opened Bytes

  const EINVAL: int := 22
  const ETIMEDOUT: int := 110
  const OK_MESSAGE: bytes := [111, 107]

  datatype NdpResult = ResultOk | ProcessLocally | ResultError

  datatype Response = Response(callId: nat, result: NdpResult)

  datatype Body = Read(offset: nat, uptoLength: nat) | Write(offset: nat, data: bytes) | End | Unknown

  /** The store's verdict on an operation, and whether the reply then goes out. */
  datatype Outcome = Outcome(stored: bool, content: bytes, delivered: bool)

  datatype Event =
    | Timeout
    | Broken // the receive throws: socket failure, error frame, or a message that does not verify
    | Message(callId: nat, body: Body, outcome: Outcome)

  datatype Answer = NoAnswer | BadAnswer | RuntimeAnswer(callId: nat, result: NdpResult)

  datatype Request = Malformed | Wellformed(callId: nat)

  /** A null input list is dereferenced by the first log line, before the test for it. */
  datatype Exit = Crashed | Returned(code: int)

  /** An operation on the object, as the plugin passes it to the store. */
  datatype StoreOp = ReadOp(offset: nat, uptoLength: nat) | WriteOp(offset: nat, data: bytes)

  datatype Sent = Payload(data: bytes) | ErrorSignal

  // ----- What a script amounts to -----

  predicate IsOperation(b: Body) {
    b.Read? || b.Write?
  }

  /** An operation of this call that the store accepts and whose reply goes out. */
  predicate Succeeds(e: Event, callId: nat) {
    e.Message? && e.callId == callId && IsOperation(e.body) && e.outcome.stored && e.outcome.delivered
  }

  /** The number of leading events that are successful operations. */
  function Accepted(events: seq<Event>, callId: nat): (n: nat)
    ensures n <= |events|
    ensures forall i :: 0 <= i < n ==> Succeeds(events[i], callId)
    ensures n < |events| ==> !Succeeds(events[n], callId)
  {
    if events == [] || !Succeeds(events[0], callId) then 0 else 1 + Accepted(events[1..], callId)
  }

  /** The event that ends the loop. */
  function Last(events: seq<Event>, callId: nat): Event {
    var n := Accepted(events, callId);
    if n < |events| then events[n] else Timeout
  }

  predicate IsOperationMessage(e: Event) {
    e.Message? && IsOperation(e.body)
  }

  function Operation(b: Body): StoreOp
    requires IsOperation(b)
  {
    if b.Read? then ReadOp(b.offset, b.uptoLength) else WriteOp(b.offset, b.data)
  }

  function Operations(events: seq<Event>): seq<StoreOp> {
    if events == [] then []
    else
      var e := events[|events| - 1];
      Operations(events[..|events| - 1]) + if IsOperationMessage(e) then [Operation(e.body)] else []
  }

  function ReplyTo(e: Event): Sent
    requires e.Message?
  {
    if e.body.Read? then Payload(e.outcome.content) else Payload(OK_MESSAGE)
  }

  function Replies(events: seq<Event>): seq<Sent>
    requires forall i :: 0 <= i < |events| ==> events[i].Message?
  {
    seq(|events|, i requires 0 <= i < |events| => ReplyTo(events[i]))
  }

  /** The operation the last event may still issue: it reaches the store before anything can fail. */
  function LastOperation(e: Event, callId: nat): seq<StoreOp> {
    if IsOperationMessage(e) && e.callId == callId then [Operation(e.body)] else []
  }

  /** The error signal the last event may cause: a refused operation or an unknown message. */
  function LastSignal(e: Event, callId: nat): seq<Sent> {
    if e.Message? && e.callId == callId && e.outcome.delivered
       && ((IsOperation(e.body) && !e.outcome.stored) || e.body.Unknown?)
    then [ErrorSignal] else []
  }

  predicate EndsWell(e: Event, callId: nat) {
    e.Message? && e.callId == callId && e.body.End?
  }

  /**
   The first `n` messages, all of them operations of this call, have each been passed to the
   store and answered, in order: a read by what was read, a write by "ok".
   */
  ghost predicate Served(callId: nat, events: seq<Event>, n: nat, issued0: seq<StoreOp>, sent0: seq<Sent>,
                         issued: seq<StoreOp>, sent: seq<Sent>)
  {
    && n <= |events|
    && issued0 <= issued && |issued0| + n <= |issued|
    && sent0 <= sent && |sent0| + n <= |sent|
    && forall i | 0 <= i < n ::
         && events[i].Message? && events[i].callId == callId && events[i].outcome.stored && events[i].outcome.delivered
         && match events[i].body
            case Read(offset, uptoLength) =>
              issued[|issued0| + i] == ReadOp(offset, uptoLength) && sent[|sent0| + i] == Payload(events[i].outcome.content)
            case Write(offset, data) =>
              issued[|issued0| + i] == WriteOp(offset, data) && sent[|sent0| + i] == Payload([111, 107])
            case _ => false
  }

  /** What the next message, or the lack of one, leads to: the result, and what is issued and sent on the way out. */
  ghost predicate Ended(callId: nat, events: seq<Event>, n: nat, issuedAfter: seq<StoreOp>, sentAfter: seq<Sent>, result: NdpResult) {
    if n >= |events| || !events[n].Message? || events[n].callId != callId then
      result == ResultError && issuedAfter == [] && sentAfter == []
    else
      var outcome := events[n].outcome;
      match events[n].body
      case End => result == ResultOk && issuedAfter == [] && sentAfter == []
      case Unknown =>
        result == ResultError && issuedAfter == [] && sentAfter == if outcome.delivered then [ErrorSignal] else []
      case Read(offset, uptoLength) =>
        && result == ResultError && !(outcome.stored && outcome.delivered)
        && issuedAfter == [ReadOp(offset, uptoLength)]
        && sentAfter == if outcome.delivered then [ErrorSignal] else []
      case Write(offset, data) =>
        && result == ResultError && !(outcome.stored && outcome.delivered)
        && issuedAfter == [WriteOp(offset, data)]
        && sentAfter == if outcome.delivered then [ErrorSignal] else []
  }

  lemma {:induction false} OperationsOfOperations(events: seq<Event>)
    requires forall i | 0 <= i < |events| :: IsOperationMessage(events[i])
    ensures |Operations(events)| == |events|
    ensures forall i | 0 <= i < |events| :: IsOperationMessage(events[i]) && Operations(events)[i] == Operation(events[i].body)
  {
    if events != [] {
      OperationsOfOperations(events[..|events| - 1]);
    }
  }

  lemma AcceptedAreServed(callId: nat, events: seq<Event>, issued0: seq<StoreOp>, sent0: seq<Sent>)
    ensures var n := Accepted(events, callId);
            Served(callId, events, n, issued0, sent0, issued0 + Operations(events[..n]), sent0 + Replies(events[..n]))
            && |Operations(events[..n])| == n
  {
    OperationsOfOperations(events[..Accepted(events, callId)]);
  }

  lemma ServedThenMore(callId: nat, events: seq<Event>, n: nat, issued0: seq<StoreOp>, sent0: seq<Sent>,
                       issued: seq<StoreOp>, sent: seq<Sent>, issuedAfter: seq<StoreOp>, sentAfter: seq<Sent>)
    requires Served(callId, events, n, issued0, sent0, issued, sent)
    requires |issued| == |issued0| + n && |sent| == |sent0| + n
    ensures Served(callId, events, n, issued0, sent0, issued + issuedAfter, sent + sentAfter)
    ensures (issued + issuedAfter)[|issued0| + n..] == issuedAfter && (sent + sentAfter)[|sent0| + n..] == sentAfter
  {
  }

  class Plugin {
    var outBuffers: seq<Response>
    var issued: seq<StoreOp>
    var sent: seq<Sent>

    constructor ()
      ensures outBuffers == [] && issued == [] && sent == []
    {
      outBuffers, issued, sent := [], [], [];
    }

    /** One read or write, or an error; true stands for an exception that leaves the loop. */
    method Serve(e: Event) returns (threw: bool)
      requires e.Message? && !e.body.End?
      modifies this`issued, this`sent
      ensures threw <==> !(IsOperation(e.body) && e.outcome.stored && e.outcome.delivered)
      ensures issued == old(issued) + LastOperation(e, e.callId)
      ensures sent == old(sent) + if threw then LastSignal(e, e.callId) else [ReplyTo(e)]
      ensures !threw && e.body.Read? ==> sent == old(sent) + [Payload(e.outcome.content)]
      ensures !threw && e.body.Write? ==> sent == old(sent) + [Payload([111, 107])]
      ensures threw ==> sent == old(sent) + if e.outcome.delivered then [ErrorSignal] else []
    {
      match e.body {
        case Read(offset, uptoLength) =>
          issued := issued + [ReadOp(offset, uptoLength)];
          if !e.outcome.stored {
            SendError(e.outcome.delivered);
            return true;
          }
          threw := SendMessage(e.outcome.content, e.outcome.delivered);
        case Write(offset, data) =>
          issued := issued + [WriteOp(offset, data)];
          if !e.outcome.stored {
            SendError(e.outcome.delivered);
            return true;
          }
          threw := SendMessage(OK_MESSAGE, e.outcome.delivered);
        case Unknown =>
          SendError(e.outcome.delivered);
          return true;
      }
    }

    method SendError(delivered: bool)
      modifies this`sent
      ensures sent == old(sent) + if delivered then [ErrorSignal] else []
    {
      if delivered {
        sent := sent + [ErrorSignal];
      }
    }

    method SendMessage(data: bytes, delivered: bool) returns (threw: bool)
      modifies this`sent
      ensures threw == !delivered
      ensures sent == old(sent) + if delivered then [Payload(data)] else []
    {
      if delivered {
        sent := sent + [Payload(data)];
      }
      threw := !delivered;
    }

    /**
     The message loop; the result is what the caller reports. `n` messages are served, each by
     one call to the store and one reply; the one after them, if any, ends the loop.
     */
    method Loop(callId: nat, events: seq<Event>) returns (result: NdpResult, ghost n: nat)
      modifies this`issued, this`sent
      ensures n == Accepted(events, callId)
      ensures result == if EndsWell(Last(events, callId), callId) then ResultOk else ResultError
      ensures issued == old(issued) + Operations(events[..n]) + LastOperation(Last(events, callId), callId)
      ensures sent == old(sent) + Replies(events[..n]) + LastSignal(Last(events, callId), callId)
      ensures Served(callId, events, n, old(issued), old(sent), issued, sent)
      ensures Ended(callId, events, n, issued[|old(issued)| + n..], sent[|old(sent)| + n..], result)
    {
      result, n := RunLoop(callId, events);
      AcceptedAreServed(callId, events, old(issued), old(sent));
      ServedThenMore(callId, events, n, old(issued), old(sent),
                     old(issued) + Operations(events[..n]), old(sent) + Replies(events[..n]),
                     LastOperation(Last(events, callId), callId), LastSignal(Last(events, callId), callId));
    }

    /** The loop itself. */
    method RunLoop(callId: nat, events: seq<Event>) returns (result: NdpResult, ghost n: nat)
      modifies this`issued, this`sent
      ensures n == Accepted(events, callId)
      ensures result == if EndsWell(Last(events, callId), callId) then ResultOk else ResultError
      ensures issued == old(issued) + Operations(events[..n]) + LastOperation(Last(events, callId), callId)
      ensures sent == old(sent) + Replies(events[..n]) + LastSignal(Last(events, callId), callId)
    {
      var running, next := true, 0;
      result := ResultOk;
      n := Accepted(events, callId);
      while running
        invariant 0 <= next <= n
        invariant result == ResultOk
        invariant running
        invariant issued == old(issued) + Operations(events[..next])
        invariant sent == old(sent) + Replies(events[..next])
        decreases n - next, running
      {
        if next == |events| {
          assert Last(events, callId) == Timeout;
          return ResultError, n;
        }
        var e := events[next];
        if !e.Message? || e.callId != callId {
          return ResultError, n;
        }
        if e.body.End? {
          running := false;
          break;
        }
        var threw := Serve(e);
        if threw {
          return ResultError, n;
        }
        assert Succeeds(e, callId);
        assert events[..next + 1][..next] == events[..next];
        assert Replies(events[..next + 1]) == Replies(events[..next]) + [ReplyTo(e)];
        next := next + 1;
      }
    }

    /** The whole call: its return code, and what it appends to the output. */
    method MaybeExecWasm(inPresent: bool, outPresent: bool, readAllowed: bool, writeAllowed: bool,
                         request: Request, connected: bool, answer: Answer, events: seq<Event>)
      returns (exit: Exit, ghost n: nat)
      modifies this
      ensures exit.Crashed? <==> !inPresent
      ensures exit.Returned? ==> exit.code == 0 || exit.code == -EINVAL || exit.code == -ETIMEDOUT
      ensures exit != Returned(0) ==> outBuffers == old(outBuffers) && issued == old(issued) && sent == old(sent)
      ensures exit == Returned(0) ==> |outBuffers| == |old(outBuffers)| + 1 && outBuffers[..|old(outBuffers)|] == old(outBuffers)
      ensures exit == Returned(-EINVAL) <==> inPresent && (!outPresent || !(readAllowed || writeAllowed))
      ensures exit == Returned(-ETIMEDOUT) <==> inPresent && outPresent && (readAllowed || writeAllowed)
                                                && request.Wellformed? && connected && answer.NoAnswer?
      ensures exit == Returned(0) && Running(request, connected, answer) ==>
                && outBuffers[|old(outBuffers)|]
                   == Response(request.callId,
                               if EndsWell(Last(events, request.callId), request.callId) then ResultOk else ResultError)
                && issued == old(issued) + Operations(events[..Accepted(events, request.callId)])
                             + LastOperation(Last(events, request.callId), request.callId)
                && sent == old(sent) + Replies(events[..Accepted(events, request.callId)])
                           + LastSignal(Last(events, request.callId), request.callId)
      ensures exit == Returned(0) && Running(request, connected, answer) ==>
                && Served(request.callId, events, n, old(issued), old(sent), issued, sent)
                && Ended(request.callId, events, n, issued[|old(issued)| + n..], sent[|old(sent)| + n..],
                         outBuffers[|old(outBuffers)|].result)
      ensures exit == Returned(0) && !Running(request, connected, answer) ==>
                && issued == old(issued) && sent == old(sent)
                && outBuffers[|old(outBuffers)|]
                   == if request.Malformed? then Response(0, ResultError)
                      else if connected && answer.RuntimeAnswer? && answer.callId == request.callId
                      then Response(request.callId, answer.result) // as the runtime gave it, and not Ok
                      else Response(request.callId, ResultError)
    {
      n := 0;
      if !inPresent {
        return Crashed, n;
      }
      if !outPresent || !(readAllowed || writeAllowed) {
        return Returned(-EINVAL), n;
      }
      var callId, result := 0, ResultOk;
      if request.Malformed? {
        result := ResultError;
      } else {
        callId := request.callId;
        if !connected {
          result := ResultError;
        } else if answer.NoAnswer? {
          return Returned(-ETIMEDOUT), n;
        } else if answer.BadAnswer? || answer.callId != callId {
          result := ResultError;
        } else if answer.result != ResultOk {
          outBuffers := outBuffers + [Response(answer.callId, answer.result)];
          return Returned(0), n;
        } else {
          result, n := Loop(callId, events);
        }
      }
      outBuffers := outBuffers + [Response(callId, result)];
      exit := Returned(0);
    }
  }

  /** The runtime accepted this very call. */
  predicate Running(request: Request, connected: bool, answer: Answer) {
    request.Wellformed? && connected && answer == RuntimeAnswer(request.callId, ResultOk)
  }

  /** Ok is reported only if every message up to the end carried the call id and was served. */
  lemma OkMeansCleanEnd(events: seq<Event>, callId: nat)
    requires EndsWell(Last(events, callId), callId)
    ensures exists n | 0 <= n < |events| ::
              && EndsWell(events[n], callId)
              && forall i :: 0 <= i < n ==> Succeeds(events[i], callId)
  {
    var n := Accepted(events, callId);
    assert EndsWell(events[n], callId);
  }

  /** Exactly one reply for each successful operation, in the order of the operations. */
  lemma OneReplyEach(events: seq<Event>, callId: nat)
    ensures var n := Accepted(events, callId);
            && |Replies(events[..n])| == n
            && (forall i | 0 <= i < n && events[i].body.Read? :: Replies(events[..n])[i] == Payload(events[i].outcome.content))
            && (forall i | 0 <= i < n && !events[i].body.Read? :: Replies(events[..n])[i] == Payload([111, 107]))
            && LastSignal(Last(events, callId), callId) in {[], [ErrorSignal]}
  {
  }

  /** Every operation is issued, with its own arguments, after those before it. */
  lemma {:induction false} OperationsInOrder(events: seq<Event>, i: nat)
    requires i < |events| && events[i].Message?
    ensures var k := |Operations(events[..i])|;
            && k <= |Operations(events)| && Operations(events)[..k] == Operations(events[..i])
            && (events[i].body.Read? ==>
                  k < |Operations(events)| && Operations(events)[k] == ReadOp(events[i].body.offset, events[i].body.uptoLength))
            && (events[i].body.Write? ==>
                  k < |Operations(events)| && Operations(events)[k] == WriteOp(events[i].body.offset, events[i].body.data))
  {
    var m := |events| - 1;
    if i < m {
      OperationsInOrder(events[..m], i);
      assert events[..m][..i] == events[..i];
    }
  }

  /** There are as many operations issued as there are messages that ask for one. */
  lemma {:induction false} OneOperationEach(events: seq<Event>)
    ensures |Operations(events)| == |set i | 0 <= i < |events| && IsOperationMessage(events[i])|
  {
    if events != [] {
      var m := |events| - 1;
      OneOperationEach(events[..m]);
      var all, before := set i | 0 <= i < |events| && IsOperationMessage(events[i]), set i | 0 <= i < m && IsOperationMessage(events[..m][i]);
      assert all == if IsOperationMessage(events[m]) then before + {m} else before;
    }
  }

  /** And nothing else is issued. */
  lemma {:induction false} OnlyOperationsIssued(events: seq<Event>)
    ensures forall w :: w in Operations(events) ==>
              exists i :: 0 <= i < |events| && IsOperationMessage(events[i]) && w == Operation(events[i].body)
  {
    if events != [] {
      var m := |events| - 1;
      OnlyOperationsIssued(events[..m]);
      forall w | w in Operations(events)
        ensures exists i :: 0 <= i < |events| && IsOperationMessage(events[i]) && w == Operation(events[i].body)
      {
        if w in Operations(events[..m]) {
          var i :| 0 <= i < m && IsOperationMessage(events[..m][i]) && w == Operation(events[..m][i].body);
          assert events[i] == events[..m][i];
        } else {
          assert IsOperationMessage(events[m]);
        }
      }
    }
  }
}
