/**
 * Pthreads of a guest: calls are queued, the first await runs the whole queue
 * as one batch of messages, and every await looks up the result of its own
 * thread through the thread pointer.
 */
module PthreadBatches {
  import opened Options

  datatype PthreadCall = PthreadCall(pthreadPtr: int, entryFunc: int, argsPtr: int)

  datatype Message = Message(id: nat, funcPtr: int, input: int, appIdx: nat, groupIdx: nat)

  type Results = seq<(nat, int)>

  /** What the scheduler contributes to one batch: the ids of its messages and the list of results. */
  datatype Batch = Batch(ids: seq<nat>, results: Results)

  /** `executed` lists the batches handed to the executor so far. */
  datatype Threads = Threads(queue: seq<PthreadCall>, callIds: map<int, nat>, results: Results, executed: seq<seq<Message>>)

  function Find(results: Results, id: nat): Option<int> {
    if results == [] then None
    else if results[0].0 == id then Some(results[0].1)
    else Find(results[1..], id)
  }

  /** The result found is that of the first entry under the id; none is found only if there is no such entry. */
  lemma {:induction false} FindIsFirst(results: Results, id: nat)
    ensures Find(results, id).None? <==> forall k | 0 <= k < |results| :: results[k].0 != id
    ensures Find(results, id).Some? ==> exists k | 0 <= k < |results| ::
              results[k] == (id, Find(results, id).value) && forall j | 0 <= j < k :: results[j].0 != id
  {
    if results != [] && results[0].0 != id {
      var rest := results[1..];
      FindIsFirst(rest, id);
      if Find(rest, id).Some? {
        var k :| 0 <= k < |rest| && rest[k] == (id, Find(rest, id).value) && forall j | 0 <= j < k :: rest[j].0 != id;
        assert results[k + 1] == rest[k];
        forall j | 0 <= j < k + 1 ensures results[j].0 != id {
          assert j > 0 ==> results[j] == rest[j - 1];
        }
      } else {
        forall k | 0 <= k < |results| ensures results[k].0 != id {
          assert k > 0 ==> results[k] == rest[k - 1];
        }
      }
    }
  }

  /** An existing mapping is never replaced. */
  function Insert(m: map<int, nat>, ptr: int, id: nat): map<int, nat> {
    if ptr in m then m else m[ptr := id]
  }

  function Recorded(m: map<int, nat>, queue: seq<PthreadCall>, ids: seq<nat>): map<int, nat>
    requires |ids| == |queue|
  {
    if queue == [] then m
    else
      var n := |queue| - 1;
      Insert(Recorded(m, queue[..n], ids[..n]), queue[n].pthreadPtr, ids[n])
  }

  /** Message i carries call i, as thread i + 1 of the group. */
  function Messages(queue: seq<PthreadCall>, ids: seq<nat>): seq<Message>
    requires |ids| == |queue|
  {
    seq(|queue|, i requires 0 <= i < |queue| => Message(ids[i], queue[i].entryFunc, queue[i].argsPtr, i + 1, i + 1))
  }

  /** One message per call, message i under id i, with the call's function and argument, as thread i + 1 of the group. */
  ghost predicate Carries(messages: seq<Message>, calls: seq<PthreadCall>, ids: seq<nat>) {
    && |messages| == |calls| == |ids|
    && forall i | 0 <= i < |calls| ::
         && messages[i].id == ids[i]
         && messages[i].funcPtr == calls[i].entryFunc && messages[i].input == calls[i].argsPtr
         && messages[i].appIdx == i + 1 && messages[i].groupIdx == i + 1
  }

  function Queue(t: Threads, call: PthreadCall): Threads {
    t.(queue := t.queue + [call])
  }

  /** A queue, if there is one, is executed first. */
  function Flush(t: Threads, batch: Batch): Threads
    requires |batch.ids| == |t.queue|
  {
    if t.queue == [] then t
    else Threads([], Recorded(t.callIds, t.queue, batch.ids), batch.results, t.executed + [Messages(t.queue, batch.ids)])
  }

  /** An unknown thread is looked up under id 0; a failed lookup throws and leaves the mapping behind. */
  function Lookup(t: Threads, ptr: int): (Threads, Option<int>) {
    var ids := Insert(t.callIds, ptr, 0);
    var found := Find(t.results, ids[ptr]);
    if found.None? then (t.(callIds := ids), None)
    else
      var rest := ids - {ptr};
      (t.(callIds := rest, results := if rest == map[] then [] else t.results), found)
  }

  /** A look-up touches the entry of its own thread alone; the results go when the last thread has got its own. */
  lemma LookupFrame(t: Threads, ptr: int)
    ensures var (after, r) := Lookup(t, ptr);
            && after.queue == t.queue && after.executed == t.executed
            && r == Find(t.results, if ptr in t.callIds then t.callIds[ptr] else 0)
            && after.callIds.Keys == (if r.Some? then t.callIds.Keys - {ptr} else t.callIds.Keys + {ptr})
            && (forall p | p in t.callIds && p in after.callIds :: after.callIds[p] == t.callIds[p])
            && (r.None? && ptr !in t.callIds ==> after.callIds[ptr] == 0)
            && after.results == if r.Some? && t.callIds.Keys <= {ptr} then [] else t.results
  {
    var ids := Insert(t.callIds, ptr, 0);
    assert ids - {ptr} == map[] <==> (ids - {ptr}).Keys == {};
  }

  function Await(t: Threads, ptr: int, batch: Batch): (Threads, Option<int>)
    requires |batch.ids| == |t.queue|
  {
    Lookup(Flush(t, batch), ptr)
  }

  // ---------- Recording a batch ----------

  ghost predicate Distinct(queue: seq<PthreadCall>) {
    forall i, j :: 0 <= i < j < |queue| ==> queue[i].pthreadPtr != queue[j].pthreadPtr
  }

  ghost predicate DistinctIds(ids: seq<nat>) {
    forall i, j :: 0 <= i < j < |ids| ==> ids[i] != ids[j]
  }

  /** No thread is still mapped under `ptr`, and no earlier call of the queue has it. */
  ghost predicate FirstUse(m: map<int, nat>, queue: seq<PthreadCall>, i: nat)
    requires i < |queue|
  {
    queue[i].pthreadPtr !in m && forall j :: 0 <= j < i ==> queue[j].pthreadPtr != queue[i].pthreadPtr
  }

  lemma {:induction false} RecordedKeys(m: map<int, nat>, queue: seq<PthreadCall>, ids: seq<nat>)
    requires |ids| == |queue|
    ensures Recorded(m, queue, ids).Keys == m.Keys + set i | 0 <= i < |queue| :: queue[i].pthreadPtr
    ensures forall p :: p in m ==> Recorded(m, queue, ids)[p] == m[p]
  {
    if queue != [] {
      var n := |queue| - 1;
      RecordedKeys(m, queue[..n], ids[..n]);
      assert (set i | 0 <= i < |queue| :: queue[i].pthreadPtr)
          == (set i | 0 <= i < n :: queue[..n][i].pthreadPtr) + {queue[n].pthreadPtr};
    }
  }

  lemma {:induction false} RecordedValue(m: map<int, nat>, queue: seq<PthreadCall>, ids: seq<nat>, i: nat)
    requires |ids| == |queue| && i < |queue| && FirstUse(m, queue, i)
    ensures queue[i].pthreadPtr in Recorded(m, queue, ids) && Recorded(m, queue, ids)[queue[i].pthreadPtr] == ids[i]
  {
    var n := |queue| - 1;
    RecordedKeys(m, queue[..n], ids[..n]);
    if i < n {
      RecordedValue(m, queue[..n], ids[..n], i);
    }
  }

  lemma {:induction false} RecordedFrom(m: map<int, nat>, queue: seq<PthreadCall>, ids: seq<nat>, p: int)
    requires |ids| == |queue| && p in Recorded(m, queue, ids) && p !in m
    ensures exists i :: 0 <= i < |queue| && FirstUse(m, queue, i) && queue[i].pthreadPtr == p
  {
    var n := |queue| - 1;
    var before := Recorded(m, queue[..n], ids[..n]);
    RecordedKeys(m, queue[..n], ids[..n]);
    if p in before {
      RecordedFrom(m, queue[..n], ids[..n], p);
      var i :| 0 <= i < n && FirstUse(m, queue[..n], i) && queue[..n][i].pthreadPtr == p;
      assert FirstUse(m, queue, i);
    } else {
      assert FirstUse(m, queue, n);
    }
  }

  /** A queued thread is found under its own call id exactly when its pointer is free. */
  lemma RecordedIff(m: map<int, nat>, queue: seq<PthreadCall>, ids: seq<nat>, i: nat)
    requires |ids| == |queue| && i < |queue| && DistinctIds(ids) && (forall k :: 0 <= k < |ids| ==> ids[k] !in m.Values)
    ensures queue[i].pthreadPtr in Recorded(m, queue, ids)
    ensures Recorded(m, queue, ids)[queue[i].pthreadPtr] == ids[i] <==> FirstUse(m, queue, i)
  {
    var p := queue[i].pthreadPtr;
    RecordedKeys(m, queue, ids);
    if p !in m {
      RecordedFrom(m, queue, ids, p);
      var k :| 0 <= k < |queue| && FirstUse(m, queue, k) && queue[k].pthreadPtr == p;
      RecordedValue(m, queue, ids, k);
    }
  }

  // ---------- Awaiting a batch ----------

  ghost predicate Idle(t: Threads) { t.queue == [] && t.callIds == map[] && t.results == [] }

  /** The scheduler reports each message of the batch: `outcomes[i]` is the result of call i. */
  ghost predicate Reports(batch: Batch, outcomes: seq<int>) {
    |batch.ids| == |outcomes| && DistinctIds(batch.ids)
    && forall i :: 0 <= i < |outcomes| ==> Find(batch.results, batch.ids[i]) == Some(outcomes[i])
  }

  /** Results are there for exactly the threads of `want`. */
  ghost predicate Pending(t: Threads, want: map<int, int>) {
    && t.queue == [] && t.callIds.Keys == want.Keys
    && (forall p :: p in want ==> Find(t.results, t.callIds[p]) == Some(want[p]))
    && (want == map[] ==> t.results == [])
  }

  function Want(queue: seq<PthreadCall>, outcomes: seq<int>): map<int, int>
    requires |queue| == |outcomes|
  {
    if queue == [] then map[]
    else
      var n := |queue| - 1;
      Want(queue[..n], outcomes[..n])[queue[n].pthreadPtr := outcomes[n]]
  }

  lemma {:induction false} WantKeys(queue: seq<PthreadCall>, outcomes: seq<int>)
    requires |queue| == |outcomes|
    ensures Want(queue, outcomes).Keys == set i | 0 <= i < |queue| :: queue[i].pthreadPtr
  {
    if queue != [] {
      var n := |queue| - 1;
      WantKeys(queue[..n], outcomes[..n]);
      assert (set i | 0 <= i < |queue| :: queue[i].pthreadPtr)
          == (set i | 0 <= i < n :: queue[..n][i].pthreadPtr) + {queue[n].pthreadPtr};
    }
  }

  lemma {:induction false} WantValue(queue: seq<PthreadCall>, outcomes: seq<int>, i: nat)
    requires |queue| == |outcomes| && Distinct(queue) && i < |queue|
    ensures queue[i].pthreadPtr in Want(queue, outcomes) && Want(queue, outcomes)[queue[i].pthreadPtr] == outcomes[i]
  {
    var n := |queue| - 1;
    if i < n {
      WantValue(queue[..n], outcomes[..n], i);
    }
  }

  /** Running a batch makes every queued thread's result pending. */
  lemma FlushPends(t: Threads, batch: Batch, outcomes: seq<int>)
    requires t.callIds == map[] && t.queue != [] && |t.queue| == |outcomes| && Distinct(t.queue) && Reports(batch, outcomes)
    ensures Pending(Flush(t, batch), Want(t.queue, outcomes))
    ensures Flush(t, batch).executed == t.executed + [Messages(t.queue, batch.ids)]
    ensures Carries(Messages(t.queue, batch.ids), t.queue, batch.ids)
  {
    RecordedKeys(t.callIds, t.queue, batch.ids);
    WantKeys(t.queue, outcomes);
    var want := Want(t.queue, outcomes);
    var after := Flush(t, batch);
    forall p | p in want ensures Find(after.results, after.callIds[p]) == Some(want[p]) {
      var i :| 0 <= i < |t.queue| && t.queue[i].pthreadPtr == p;
      RecordedValue(t.callIds, t.queue, batch.ids, i);
      WantValue(t.queue, outcomes, i);
    }
    assert t.queue[0].pthreadPtr in want;
  }

  lemma LookupOne(t: Threads, want: map<int, int>, ptr: int)
    requires Pending(t, want) && ptr in want
    ensures var (t', r) := Lookup(t, ptr);
            r == Some(want[ptr]) && Pending(t', want - {ptr}) && t'.executed == t.executed
  {
    var ids := t.callIds;
    var (t', r) := Lookup(t, ptr);
    assert t'.callIds == ids - {ptr};
    assert want - {ptr} == map[] <==> ids - {ptr} == map[] by {
      assert (want - {ptr}).Keys == (ids - {ptr}).Keys;
      assert want - {ptr} == map[] <==> (want - {ptr}).Keys == {};
      assert ids - {ptr} == map[] <==> (ids - {ptr}).Keys == {};
    }
  }

  /** Awaiting each pointer of `order` in turn, with nothing queued. */
  function AwaitAll(t: Threads, order: seq<int>): (Threads, seq<Option<int>>)
    requires t.queue == []
    decreases |order|
  {
    if order == [] then (t, [])
    else
      var (t1, r) := Await(t, order[0], Batch([], []));
      var (t2, rs) := AwaitAll(t1, order[1..]);
      (t2, [r] + rs)
  }

  ghost predicate Permutes(order: seq<int>, pointers: set<int>) {
    && (forall i, j :: 0 <= i < j < |order| ==> order[i] != order[j])
    && (forall p :: p in order <==> p in pointers)
  }

  lemma PermutesRest(order: seq<int>, pointers: set<int>)
    requires Permutes(order, pointers) && order != []
    ensures Permutes(order[1..], pointers - {order[0]})
  {
    forall p ensures p in order[1..] <==> p in pointers - {order[0]} {
      assert p in order <==> p == order[0] || p in order[1..] by {
        assert order == [order[0]] + order[1..];
      }
    }
  }

  lemma {:induction false} AwaitAllReturns(t: Threads, want: map<int, int>, order: seq<int>)
    requires Pending(t, want) && Permutes(order, want.Keys)
    ensures var (t', rs) := AwaitAll(t, order);
            && Idle(t') && t'.executed == t.executed
            && |rs| == |order| && forall k :: 0 <= k < |order| ==> rs[k] == Some(want[order[k]])
    decreases |order|
  {
    if order == [] {
      assert forall p :: p !in want;
      assert want == map[] && t.callIds == map[];
    } else {
      var ptr := order[0];
      assert ptr in order;
      LookupOne(t, want, ptr);
      PermutesRest(order, want.Keys);
      assert (want - {ptr}).Keys == want.Keys - {ptr};
      AwaitAllReturns(Lookup(t, ptr).0, want - {ptr}, order[1..]);
      var rest := AwaitAll(Lookup(t, ptr).0, order[1..]).1;
      forall k | 0 <= k < |order| ensures AwaitAll(t, order).1[k] == Some(want[order[k]]) {
        if k > 0 {
          assert AwaitAll(t, order).1[k] == rest[k - 1] && order[k] == order[1..][k - 1];
        }
      }
    }
  }

  // ---------- Any number of batches ----------

  /** Calls queued, what the scheduler did with them, and the order in which they are awaited. */
  datatype Round = Round(calls: seq<PthreadCall>, batch: Batch, outcomes: seq<int>, order: seq<int>)

  ghost predicate GoodRound(r: Round) {
    && r.calls != [] && |r.calls| == |r.outcomes| && Distinct(r.calls) && Reports(r.batch, r.outcomes)
    && Permutes(r.order, set i | 0 <= i < |r.calls| :: r.calls[i].pthreadPtr)
  }

  function QueueAll(t: Threads, calls: seq<PthreadCall>): Threads
    decreases |calls|
  {
    if calls == [] then t else QueueAll(Queue(t, calls[0]), calls[1..])
  }

  lemma {:induction false} QueueAllAppends(t: Threads, calls: seq<PthreadCall>)
    ensures QueueAll(t, calls) == t.(queue := t.queue + calls)
    decreases |calls|
  {
    if calls != [] {
      QueueAllAppends(Queue(t, calls[0]), calls[1..]);
      assert t.queue + [calls[0]] + calls[1..] == t.queue + calls;
    } else {
      assert t.queue + calls == t.queue;
    }
  }

  /** Queue everything, then await in the given order; only the first await finds a queue to run. */
  function DoRound(t: Threads, r: Round): (Threads, seq<Option<int>>)
    requires |r.batch.ids| == |QueueAll(t, r.calls).queue| && r.order != []
  {
    var (t1, first) := Await(QueueAll(t, r.calls), r.order[0], r.batch);
    var (t2, rest) := AwaitAll(t1, r.order[1..]);
    (t2, [first] + rest)
  }

  /** One batch: every await, in any order, returns its own thread's result, and the batch runs once. */
  lemma RoundReturns(t: Threads, r: Round)
    requires Idle(t) && GoodRound(r)
    ensures |r.batch.ids| == |QueueAll(t, r.calls).queue| && r.order != []
    ensures var (t', rs) := DoRound(t, r);
            && Idle(t') && t'.executed == t.executed + [Messages(r.calls, r.batch.ids)]
            && Carries(Messages(r.calls, r.batch.ids), r.calls, r.batch.ids)
            && |rs| == |r.order|
            && forall k, i :: 0 <= k < |r.order| && 0 <= i < |r.calls| && r.order[k] == r.calls[i].pthreadPtr ==>
                 rs[k] == Some(r.outcomes[i])
  {
    QueueAllAppends(t, r.calls);
    var q := QueueAll(t, r.calls);
    assert q.queue == r.calls;
    assert r.calls[0].pthreadPtr in r.order;
    FlushPends(q, r.batch, r.outcomes);
    WantKeys(r.calls, r.outcomes);
    AwaitAllReturns(Flush(q, r.batch), Want(r.calls, r.outcomes), r.order);
    forall k, i | 0 <= k < |r.order| && 0 <= i < |r.calls| && r.order[k] == r.calls[i].pthreadPtr
      ensures DoRound(t, r).1[k] == Some(r.outcomes[i])
    {
      WantValue(r.calls, r.outcomes, i);
    }
  }

  ghost function Rounds(t: Threads, rounds: seq<Round>): (end: Threads)
    requires Idle(t) && forall i :: 0 <= i < |rounds| ==> GoodRound(rounds[i])
    ensures Idle(end)
    decreases |rounds|
  {
    if rounds == [] then t
    else
      RoundReturns(t, rounds[0]);
      Rounds(DoRound(t, rounds[0]).0, rounds[1..])
  }

  ghost function BatchLog(rounds: seq<Round>): seq<seq<Message>>
    requires forall i :: 0 <= i < |rounds| ==> GoodRound(rounds[i])
  {
    seq(|rounds|, i requires 0 <= i < |rounds| && GoodRound(rounds[i]) => Messages(rounds[i].calls, rounds[i].batch.ids))
  }

  lemma LogSplits(rounds: seq<Round>)
    requires rounds != [] && forall i :: 0 <= i < |rounds| ==> GoodRound(rounds[i])
    ensures |rounds[0].batch.ids| == |rounds[0].calls|
    ensures BatchLog(rounds) == [Messages(rounds[0].calls, rounds[0].batch.ids)] + BatchLog(rounds[1..])
  {
    assert GoodRound(rounds[0]);
  }

  lemma {:induction false} BatchesAreLogged(t: Threads, rounds: seq<Round>)
    requires Idle(t) && forall i :: 0 <= i < |rounds| ==> GoodRound(rounds[i])
    ensures Rounds(t, rounds).executed == t.executed + BatchLog(rounds)
    decreases |rounds|
  {
    if rounds != [] {
      RoundReturns(t, rounds[0]);
      var t1 := DoRound(t, rounds[0]).0;
      BatchesAreLogged(t1, rounds[1..]);
      LogSplits(rounds);
    }
  }

  lemma LogCarries(rounds: seq<Round>, i: nat)
    requires i < |rounds| && forall i :: 0 <= i < |rounds| ==> GoodRound(rounds[i])
    ensures Carries(BatchLog(rounds)[i], rounds[i].calls, rounds[i].batch.ids)
  {
    assert GoodRound(rounds[i]);
  }

  /**
   Over any number of batches the executor runs each exactly once, in order, with one message
   for each call of the round, and nothing is left behind.
   */
  lemma EachBatchRunsOnce(t: Threads, rounds: seq<Round>)
    requires Idle(t) && forall i :: 0 <= i < |rounds| ==> GoodRound(rounds[i])
    ensures Idle(Rounds(t, rounds))
    ensures |Rounds(t, rounds).executed| == |t.executed| + |rounds| && t.executed <= Rounds(t, rounds).executed
    ensures forall i | 0 <= i < |rounds| ::
              Carries(Rounds(t, rounds).executed[|t.executed| + i], rounds[i].calls, rounds[i].batch.ids)
  {
    BatchesAreLogged(t, rounds);
    forall i | 0 <= i < |rounds|
      ensures Carries(Rounds(t, rounds).executed[|t.executed| + i], rounds[i].calls, rounds[i].batch.ids)
    {
      LogCarries(rounds, i);
    }
  }

  // ---------- The module's methods ----------

  class WasmModule {
    var queuedPthreadCalls: seq<PthreadCall>
    var pthreadPtrsToChainedCalls: map<int, nat>
    var lastPthreadResults: Results
    var executed: seq<seq<Message>>

    ghost function State(): Threads
      reads this
    {
      Threads(queuedPthreadCalls, pthreadPtrsToChainedCalls, lastPthreadResults, executed)
    }

    constructor ()
      ensures Idle(State()) && executed == []
    {
      queuedPthreadCalls, pthreadPtrsToChainedCalls, lastPthreadResults, executed := [], map[], [], [];
    }

    method QueuePthreadCall(call: PthreadCall)
      modifies this`queuedPthreadCalls
      ensures State() == Queue(old(State()), call)
    {
      queuedPthreadCalls := queuedPthreadCalls + [call];
    }

    /** Builds one message per queued call, records the call ids and runs the batch. */
    method ExecuteQueue(batch: Batch)
      requires |batch.ids| == |queuedPthreadCalls| && queuedPthreadCalls != []
      modifies this
      ensures State() == Flush(old(State()), batch)
      ensures queuedPthreadCalls == [] && lastPthreadResults == batch.results
      ensures |executed| == |old(executed)| + 1 && executed[..|old(executed)|] == old(executed)
      ensures Carries(executed[|old(executed)|], old(queuedPthreadCalls), batch.ids)
    {
      var request: seq<Message> := [];
      for i := 0 to |queuedPthreadCalls|
        invariant queuedPthreadCalls == old(queuedPthreadCalls) && executed == old(executed)
        invariant request == Messages(queuedPthreadCalls[..i], batch.ids[..i])
        invariant pthreadPtrsToChainedCalls == Recorded(old(pthreadPtrsToChainedCalls), queuedPthreadCalls[..i], batch.ids[..i])
      {
        var p := queuedPthreadCalls[i];
        var m := Message(batch.ids[i], p.entryFunc, p.argsPtr, i + 1, i + 1);
        request := request + [m];
        if p.pthreadPtr !in pthreadPtrsToChainedCalls {
          pthreadPtrsToChainedCalls := pthreadPtrsToChainedCalls[p.pthreadPtr := m.id];
        }
        assert queuedPthreadCalls[..i + 1][..i] == queuedPthreadCalls[..i] && batch.ids[..i + 1][..i] == batch.ids[..i];
      }
      assert queuedPthreadCalls[..|queuedPthreadCalls|] == queuedPthreadCalls && batch.ids[..|queuedPthreadCalls|] == batch.ids;
      executed := executed + [request];
      lastPthreadResults := batch.results;
      queuedPthreadCalls := [];
    }

    method AwaitPthreadCall(pthreadPtr: int, batch: Batch) returns (r: Option<int>)
      requires |batch.ids| == |queuedPthreadCalls|
      modifies this
      ensures (State(), r) == Await(old(State()), pthreadPtr, batch)
      ensures queuedPthreadCalls == []
      ensures old(queuedPthreadCalls) == [] ==> executed == old(executed)
      ensures old(queuedPthreadCalls) != [] ==>
                && |executed| == |old(executed)| + 1 && executed[..|old(executed)|] == old(executed)
                && Carries(executed[|old(executed)|], old(queuedPthreadCalls), batch.ids)
      ensures r.Some? <==> pthreadPtr !in pthreadPtrsToChainedCalls
    {
      if queuedPthreadCalls != [] {
        ExecuteQueue(batch);
      }
      ghost var flushed := State();
      if pthreadPtr !in pthreadPtrsToChainedCalls {
        pthreadPtrsToChainedCalls := pthreadPtrsToChainedCalls[pthreadPtr := 0];
      }
      var id := pthreadPtrsToChainedCalls[pthreadPtr];
      r := None;
      var i := 0;
      while i < |lastPthreadResults| && r.None?
        invariant 0 <= i <= |lastPthreadResults|
        invariant r.None? ==> Find(lastPthreadResults, id) == Find(lastPthreadResults[i..], id)
        invariant r.Some? ==> Find(lastPthreadResults, id) == r
        decreases |lastPthreadResults| - i, r.None?
      {
        if id == lastPthreadResults[i].0 {
          r := Some(lastPthreadResults[i].1);
        } else {
          i := i + 1;
        }
      }
      if r.None? {
        return;
      }
      pthreadPtrsToChainedCalls := pthreadPtrsToChainedCalls - {pthreadPtr};
      if pthreadPtrsToChainedCalls == map[] {
        lastPthreadResults := [];
      }
    }
  }
}
