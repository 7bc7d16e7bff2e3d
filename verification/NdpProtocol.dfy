/**
 One offloaded call on the storage node, as interleaved steps over two byte streams:

   - the runtime thread that answers the plugin's request (`response`) and only then
     starts the asynchronous receive chain;
   - the guest, which sends one storage request, waits for the mailbox, and repeats,
     until its socket closer sends the end message;
   - the plugin's loop, which reads one request, serves it and writes one reply;
   - the receive chain, which reads a frame, stores it in a one-slot mailbox under a
     lock, sets the flag outside the lock, and starts over.

 Every send and receive moves an arbitrary number of bytes per step. The guest runs as
 soon as it is scheduled, which is before the answer is sent, so its first message may
 enter the stream ahead of the answer or in the middle of it. The theorems about whole
 runs are about the orderly ones, in which no byte of the guest enters before the last
 one of the answer; `AnswerReadIff` says for every run what the plugin reads first.
 */
module NdpProtocol {
  import opened Bytes
  import opened NdpFraming

  datatype Config = Config(answer: bytes, end: bytes)

  datatype Exchange = Exchange(request: bytes, reply: bytes)

  datatype Plugin = Awaiting | Serving | Replying(thenStop: bool) | Stopped

  datatype Chain = NotStarted | Receiving | Storing(message: bytes) | Flagging | Dead

  datatype Guest = Idle | Sending | Waiting | Woken | Holding | Cleared | Closing | Closed

  /** `served` and `got` are the exchanges as the plugin and the guest have seen them. */
  datatype State = State(
    answerOut: bytes,
    guest: Guest, guestOut: bytes, request: bytes,
    up: bytes, down: bytes,
    plugin: Plugin, pluginIn: bytes, pluginOut: bytes, welcomed: bool,
    chain: Chain, chainIn: bytes,
    slot: bytes, flag: bool,
    served: seq<Exchange>, got: seq<Exchange>)

  ghost predicate ValidConfig(c: Config) {
    Sendable(c.answer) && Sendable(c.end)
  }

  function Initial(c: Config): State {
    State(Frame(c.answer), Idle, [], [], [], [], Awaiting, [], [], false, NotStarted, [], [], false, [], [])
  }

  datatype Action =
    | AnswerSends(count: nat)
    | ChainStarts
    | GuestRequests(payload: bytes)
    | GuestCloses
    | GuestSends(count: nat)
    | GuestWakes
    | GuestLocks
    | GuestClears
    | GuestTakes
    | PluginReceives(count: nat)
    | PluginHandles(reply: bytes)
    | PluginRefuses
    | PluginSends(count: nat)
    | PluginStops
    | ChainReceives(count: nat)
    | ChainCompletes
    | ChainStores
    | ChainFlags
    | ChainDies

  ghost predicate Enabled(c: Config, s: State, a: Action) {
    match a
    case AnswerSends(n) => n <= |s.answerOut|
    case ChainStarts => s.answerOut == [] && s.chain.NotStarted?
    case GuestRequests(p) => s.guest.Idle? && Sendable(p) && p != c.end
    case GuestCloses => s.guest.Idle?
    case GuestSends(n) => (s.guest.Sending? || s.guest.Closing?) && n <= |s.guestOut|
    case GuestWakes => s.guest.Waiting? && s.flag
    case GuestLocks => s.guest.Woken?
    case GuestClears => s.guest.Holding?
    case GuestTakes => s.guest.Cleared?
    case PluginReceives(n) =>
      (s.plugin.Awaiting? || s.plugin.Serving?) && n <= |s.up| && |s.pluginIn| + n <= Wanted(s.pluginIn)
    case PluginHandles(r) => (s.plugin.Awaiting? || s.plugin.Serving?) && Complete(s.pluginIn) && Sendable(r)
    case PluginRefuses => s.plugin.Serving? && Complete(s.pluginIn) && s.pluginIn[LENGTH_BYTES..] != c.end
    case PluginSends(n) => s.plugin.Replying? && n <= |s.pluginOut|
    case PluginStops => true
    case ChainReceives(n) =>
      s.chain.Receiving? && n <= |s.down| && |s.chainIn| + n <= Wanted(s.chainIn)
    case ChainCompletes => s.chain.Receiving? && Complete(s.chainIn)
    case ChainStores => s.chain.Storing? && !s.guest.Holding? && !s.guest.Cleared?
    case ChainFlags => s.chain.Flagging?
    case ChainDies => s.chain.Receiving?
  }

  function Next(c: Config, s: State, a: Action): State {
    match a
    case AnswerSends(n) =>
      if n <= |s.answerOut| then s.(up := s.up + s.answerOut[..n], answerOut := s.answerOut[n..]) else s
    case ChainStarts => s.(chain := Receiving)
    case GuestRequests(p) => s.(guest := Sending, request := p, guestOut := Frame(p))
    case GuestCloses => s.(guest := Closing, guestOut := Frame(c.end))
    case GuestSends(n) =>
      if n < |s.guestOut| then s.(up := s.up + s.guestOut[..n], guestOut := s.guestOut[n..])
      else s.(up := s.up + s.guestOut, guestOut := [], guest := if s.guest.Sending? then Waiting else Closed)
    case GuestWakes => s.(guest := Woken)
    // the lock is taken and the flag tested again; a lowered flag sends the guest back to waiting
    case GuestLocks => s.(guest := if s.flag then Holding else Waiting)
    case GuestClears => s.(guest := Cleared, flag := false)
    case GuestTakes => s.(guest := Idle, got := s.got + [Exchange(s.request, s.slot)])
    case PluginReceives(n) =>
      if n <= |s.up| then s.(pluginIn := s.pluginIn + s.up[..n], up := s.up[n..]) else s
    case PluginHandles(r) =>
      if |s.pluginIn| < LENGTH_BYTES then s
      else if s.plugin.Awaiting? then s.(plugin := Serving, welcomed := true, pluginIn := [])
      else if s.pluginIn[LENGTH_BYTES..] == c.end then s.(plugin := Stopped, pluginIn := [])
      else s.(plugin := Replying(false), pluginIn := [], pluginOut := Frame(r),
              served := s.served + [Exchange(s.pluginIn[LENGTH_BYTES..], r)])
    case PluginRefuses => s.(plugin := Replying(true), pluginIn := [], pluginOut := ErrorFrame())
    case PluginSends(n) =>
      if n < |s.pluginOut| then s.(down := s.down + s.pluginOut[..n], pluginOut := s.pluginOut[n..])
      else s.(down := s.down + s.pluginOut, pluginOut := [],
              plugin := if s.plugin == Replying(false) then Serving else Stopped)
    case PluginStops => s.(plugin := Stopped)
    case ChainReceives(n) =>
      if n <= |s.down| then s.(chainIn := s.chainIn + s.down[..n], down := s.down[n..]) else s
    case ChainCompletes =>
      if |s.chainIn| < LENGTH_BYTES then s else s.(chain := Storing(s.chainIn[LENGTH_BYTES..]), chainIn := [])
    case ChainStores => if s.chain.Storing? then s.(slot := s.chain.message, chain := Flagging) else s
    case ChainFlags => s.(flag := true, chain := Receiving)
    case ChainDies => s.(chain := Dead)
  }

  // ----- What every orderly step keeps -----

  /** A byte of the guest enters the stream only behind the whole answer. */
  predicate Orderly(s: State, a: Action) {
    a.GuestSends? ==> s.answerOut == []
  }

  function Up(s: State): bytes {
    s.pluginIn + s.up + s.answerOut + s.guestOut
  }

  function Down(s: State): bytes {
    s.chainIn + s.down + s.pluginOut
  }

  /** The bytes behind the answer, or alone once it is read. */
  function Behind(c: Config, s: State, data: bytes): bytes {
    if s.welcomed then data else Frame(c.answer) + data
  }

  function Hello(c: Config, s: State): bytes {
    if s.welcomed then [] else Frame(c.answer)
  }

  predicate ChainResting(s: State) {
    s.chain.NotStarted? || s.chain.Receiving? || s.chain.Dead?
  }

  /** No reply anywhere between the plugin and the guest. */
  ghost predicate NoReply(s: State) {
    Down(s) == [] && ChainResting(s) && !s.flag && s.served == s.got && !s.plugin.Replying?
  }

  ghost predicate RequestOut(c: Config, s: State, payload: bytes) {
    Up(s) == Behind(c, s, Frame(payload)) && NoReply(s)
  }

  /** The plugin has served the current request; its reply is somewhere on the way back. */
  ghost predicate Served(s: State) {
    && s.welcomed && Up(s) == []
    && |s.served| == |s.got| + 1 && s.served[..|s.got|] == s.got
    && s.served[|s.got|].request == s.request && Sendable(s.served[|s.got|].reply)
  }

  function Reply(s: State): bytes
    requires |s.served| == |s.got| + 1
  {
    s.served[|s.got|].reply
  }

  ghost predicate ReplyOnWire(s: State) {
    Served(s) && Down(s) == Frame(Reply(s)) && ChainResting(s) && !s.flag && s.plugin != Replying(true)
  }

  ghost predicate ReplyInChain(s: State) {
    && Served(s) && Down(s) == [] && !s.flag && !s.plugin.Replying?
    && (s.chain == Storing(Reply(s)) || (s.chain == Flagging && s.slot == Reply(s)))
  }

  ghost predicate ReplyInSlot(s: State) {
    && Served(s) && Down(s) == [] && s.slot == Reply(s) && ChainResting(s) && !s.plugin.Replying?
    && s.flag == !s.guest.Cleared?
  }

  ghost predicate Refused(s: State) {
    && s.welcomed && Up(s) == [] && Down(s) == ErrorFrame() && ChainResting(s) && !s.flag && s.served == s.got
    && (s.plugin == Replying(true) || s.plugin == Stopped)
  }

  ghost predicate Requesting(c: Config, s: State) {
    Sendable(s.request) && s.request != c.end
  }

  /** How the actors' phases go with what they have to send. */
  predicate Shape(s: State) {
    && (s.plugin.Awaiting? ==> !s.welcomed)
    && (s.plugin.Serving? || s.plugin.Replying? ==> s.welcomed)
    && (s.plugin.Replying? ==> s.pluginOut != [])
    && (s.answerOut != [] ==> (s.guest.Idle? || s.guest.Sending? || s.guest.Closing?) && s.chain.NotStarted?)
    && (s.guestOut != [] <==> s.guest.Sending? || s.guest.Closing?)
  }

  ghost predicate Inv(c: Config, s: State) {
    Shape(s) && GuestInv(c, s)
  }

  ghost predicate GuestInv(c: Config, s: State) {
    match s.guest
    case Idle => Up(s) == Hello(c, s) && NoReply(s)
    case Sending => Requesting(c, s) && RequestOut(c, s, s.request)
    case Waiting =>
      Requesting(c, s)
      && (RequestOut(c, s, s.request) || ReplyOnWire(s) || ReplyInChain(s) || ReplyInSlot(s) || Refused(s))
    case Woken => Requesting(c, s) && ReplyInSlot(s)
    case Holding => Requesting(c, s) && ReplyInSlot(s)
    case Cleared => Requesting(c, s) && ReplyInSlot(s)
    case Closing => RequestOut(c, s, c.end)
    case Closed => RequestOut(c, s, c.end) || (s.welcomed && Up(s) == [] && NoReply(s) && s.plugin.Stopped?)
  }

  lemma InitialInv(c: Config)
    requires ValidConfig(c)
    ensures Inv(c, Initial(c))
  {
    assert Up(Initial(c)) == Frame(c.answer);
  }

  // Steps that only move bytes along a stream change neither direction's contents.

  lemma AnswerMoves(p: bytes, u: bytes, a: bytes, g: bytes, n: nat)
    requires n <= |a|
    ensures p + (u + a[..n]) + a[n..] + g == p + u + a + g
  {
    assert (u + a[..n]) + a[n..] == u + a;
  }

  lemma GuestMoves(p: bytes, u: bytes, g: bytes, n: nat)
    requires n <= |g|
    ensures p + (u + g[..n]) + [] + g[n..] == p + u + [] + g
  {
  }

  lemma GuestMovesAll(p: bytes, u: bytes, g: bytes)
    ensures p + (u + g) + [] + [] == p + u + [] + g
  {
  }

  lemma PluginTakes(p: bytes, u: bytes, a: bytes, g: bytes, n: nat)
    requires n <= |u|
    ensures (p + u[..n]) + u[n..] + a + g == p + u + a + g
  {
    assert (p + u[..n]) + u[n..] == p + u;
  }

  lemma PluginMoves(x: bytes, d: bytes, o: bytes, n: nat)
    requires n <= |o|
    ensures x + (d + o[..n]) + o[n..] == x + d + o
  {
  }

  lemma PluginMovesAll(x: bytes, d: bytes, o: bytes)
    ensures x + (d + o) + [] == x + d + o
  {
  }

  lemma ChainTakes(x: bytes, d: bytes, o: bytes, n: nat)
    requires n <= |d|
    ensures (x + d[..n]) + d[n..] + o == x + d + o
  {
    assert (x + d[..n]) + d[n..] == x + d;
  }

  predicate MovesBytes(a: Action) {
    a.AnswerSends? || a.GuestSends? || a.PluginReceives? || a.PluginSends? || a.ChainReceives?
  }

  lemma MovingKeepsContents(c: Config, s: State, a: Action)
    requires Inv(c, s) && Enabled(c, s, a) && Orderly(s, a) && MovesBytes(a)
    ensures Up(Next(c, s, a)) == Up(s) && Down(Next(c, s, a)) == Down(s)
  {
    match a {
      case AnswerSends(n) =>
        AnswerMoves(s.pluginIn, s.up, s.answerOut, s.guestOut, n);
      case GuestSends(n) =>
        if n < |s.guestOut| {
          GuestMoves(s.pluginIn, s.up, s.guestOut, n);
        } else {
          GuestMovesAll(s.pluginIn, s.up, s.guestOut);
        }
      case PluginReceives(n) =>
        PluginTakes(s.pluginIn, s.up, s.answerOut, s.guestOut, n);
      case PluginSends(n) =>
        if n < |s.pluginOut| {
          PluginMoves(s.chainIn, s.down, s.pluginOut, n);
        } else {
          PluginMovesAll(s.chainIn, s.down, s.pluginOut);
        }
      case ChainReceives(n) =>
        ChainTakes(s.chainIn, s.down, s.pluginOut, n);
    }
  }

  /** The invariant of the guest looks at the streams only through their contents. */
  lemma SameContents(c: Config, s: State, s': State)
    requires GuestInv(c, s)
    requires Up(s') == Up(s) && Down(s') == Down(s)
    requires s'.guest == s.guest || (s.guest.Sending? && s'.guest.Waiting?) || (s.guest.Closing? && s'.guest.Closed?)
    requires s'.plugin == s.plugin || (s.plugin == Replying(false) && s'.plugin == Serving)
             || (s.plugin == Replying(true) && s'.plugin == Stopped)
    requires s'.request == s.request && s'.welcomed == s.welcomed && s'.chain == s.chain
    requires s'.slot == s.slot && s'.flag == s.flag && s'.served == s.served && s'.got == s.got
    ensures GuestInv(c, s')
  {
  }

  lemma MoveStep(c: Config, s: State, a: Action)
    requires Inv(c, s) && Enabled(c, s, a) && Orderly(s, a) && MovesBytes(a)
    ensures Inv(c, Next(c, s, a))
  {
    MovingKeepsContents(c, s, a);
    MovingFrame(c, s, a);
    SameContents(c, s, Next(c, s, a));
    MovingShape(c, s, a);
  }

  /** Moving bytes changes no more than the last byte sent changes the sender. */
  lemma MovingFrame(c: Config, s: State, a: Action)
    requires Enabled(c, s, a) && MovesBytes(a)
    ensures var s' := Next(c, s, a);
            && (s'.guest == s.guest || (s.guest.Sending? && s'.guest.Waiting?) || (s.guest.Closing? && s'.guest.Closed?))
            && (s'.plugin == s.plugin || (s.plugin == Replying(false) && s'.plugin == Serving)
                || (s.plugin == Replying(true) && s'.plugin == Stopped))
            && s'.request == s.request && s'.welcomed == s.welcomed && s'.chain == s.chain
            && s'.slot == s.slot && s'.flag == s.flag && s'.served == s.served && s'.got == s.got
  {
    match a {
      case AnswerSends(n) => assert Next(c, s, a) == s.(up := s.up + s.answerOut[..n], answerOut := s.answerOut[n..]);
      case PluginReceives(n) => assert Next(c, s, a) == s.(pluginIn := s.pluginIn + s.up[..n], up := s.up[n..]);
      case ChainReceives(n) => assert Next(c, s, a) == s.(chainIn := s.chainIn + s.down[..n], down := s.down[n..]);
      case GuestSends(n) =>
      case PluginSends(n) =>
    }
  }

  lemma MovingShape(c: Config, s: State, a: Action)
    requires Shape(s) && Enabled(c, s, a) && Orderly(s, a) && MovesBytes(a)
    ensures Shape(Next(c, s, a))
  {
  }

  lemma GuestBegins(c: Config, s: State, a: Action)
    requires ValidConfig(c) && Inv(c, s) && Enabled(c, s, a)
    requires a.GuestRequests? || a.GuestCloses?
    ensures Inv(c, Next(c, s, a))
  {
    var payload := if a.GuestRequests? then a.payload else c.end;
    FrameNonempty(payload);
    var sent := s.pluginIn + s.up + s.answerOut;
    assert sent + [] == sent;
  }

  lemma FrameNonempty(payload: bytes)
    ensures Frame(payload) != []
  {
    assert |Frame(payload)| >= LENGTH_BYTES;
  }

  lemma GuestReads(c: Config, s: State, a: Action)
    requires Inv(c, s) && Enabled(c, s, a)
    requires a.GuestWakes? || a.GuestLocks? || a.GuestClears? || a.GuestTakes?
    ensures Inv(c, Next(c, s, a))
  {
    var s' := Next(c, s, a);
    assert ReplyInSlot(s);
    assert Up(s') == Up(s);
    assert Down(s') == Down(s);
    if a.GuestTakes? {
      assert s.served == s.served[..|s.got|] + [s.served[|s.got|]];
      assert NoReply(s');
    } else {
      assert ReplyInSlot(s');
    }
  }

  lemma AnswerHandled(c: Config, s: State, a: Action)
    requires ValidConfig(c) && Inv(c, s) && Enabled(c, s, a)
    requires a.PluginHandles? && s.plugin.Awaiting?
    ensures Inv(c, Next(c, s, a))
  {
    var s' := Next(c, s, a);
    var rest := s.up + s.answerOut + s.guestOut;
    SplitUp(s.pluginIn, s.up, s.answerOut, s.guestOut);
    assert Up(s') == rest && Down(s') == Down(s);
    assert s' == s.(plugin := Serving, welcomed := true, pluginIn := []);
    AnswerAhead(c, s);
    FirstFrame(s.pluginIn, rest, c.answer, BehindAnswer(c, s));
    AnswerGone(c, s, s');
  }

  /** What follows the answer in the stream while it has not been read. */
  function BehindAnswer(c: Config, s: State): bytes {
    match s.guest
    case Idle => []
    case Sending => Frame(s.request)
    case Waiting => Frame(s.request)
    case _ => Frame(c.end)
  }

  lemma SplitUp(p: bytes, u: bytes, a: bytes, g: bytes)
    ensures p + u + a + g == p + (u + a + g) && [] + u + a + g == u + a + g
  {
    assert p + u + a + g == p + (u + a) + g;
  }

  lemma AnswerAhead(c: Config, s: State)
    requires Inv(c, s) && !s.welcomed
    ensures Up(s) == Frame(c.answer) + BehindAnswer(c, s)
  {
    assert Frame(c.answer) + [] == Frame(c.answer);
  }

  lemma AnswerGone(c: Config, s: State, s': State)
    requires Inv(c, s) && !s.welcomed && s.plugin.Awaiting?
    requires s' == s.(plugin := Serving, welcomed := true, pluginIn := [])
    requires Up(s') == BehindAnswer(c, s) && Down(s') == Down(s)
    ensures Inv(c, s')
  {
  }

  /** A complete buffer at a serving plugin is exactly the one message that is out. */
  lemma CompleteMeansSent(c: Config, s: State)
    requires ValidConfig(c) && Inv(c, s)
    requires s.plugin.Serving? && Complete(s.pluginIn)
    ensures s.up + s.answerOut + s.guestOut == [] && NoReply(s)
    ensures (s.guest.Waiting? && s.pluginIn[LENGTH_BYTES..] == s.request != c.end)
            || (s.guest.Closed? && s.pluginIn[LENGTH_BYTES..] == c.end)
  {
    var rest := s.up + s.answerOut + s.guestOut;
    SplitUp(s.pluginIn, s.up, s.answerOut, s.guestOut);
    var payload := if s.guest.Sending? || s.guest.Waiting? then s.request else c.end;
    SomethingOut(c, s);
    assert Frame(payload) + [] == Frame(payload);
    FirstFrame(s.pluginIn, rest, payload, []);
  }

  lemma SomethingOut(c: Config, s: State)
    requires Inv(c, s) && s.plugin.Serving? && Up(s) != []
    ensures NoReply(s)
    ensures ((s.guest.Sending? || s.guest.Waiting?) && Requesting(c, s) && Up(s) == Frame(s.request))
            || ((s.guest.Closing? || s.guest.Closed?) && Up(s) == Frame(c.end))
  {
  }

  lemma PluginServes(c: Config, s: State, a: Action)
    requires ValidConfig(c) && Inv(c, s) && Enabled(c, s, a)
    requires s.plugin.Serving? && a.PluginHandles?
    ensures Inv(c, Next(c, s, a))
  {
    CompleteMeansSent(c, s);
    FrameLength(a.reply);
    var s' := Next(c, s, a);
    assert Up(s') == s.up + s.answerOut + s.guestOut;
    assert Down(s') == s'.pluginOut;
    if s.guest.Waiting? {
      assert s'.served[..|s'.got|] == s'.got;
      assert ReplyOnWire(s');
    } else {
      assert NoReply(s');
    }
  }

  lemma PluginFails(c: Config, s: State)
    requires ValidConfig(c) && Inv(c, s) && Enabled(c, s, PluginRefuses)
    ensures Inv(c, Next(c, s, PluginRefuses))
  {
    CompleteMeansSent(c, s);
    ErrorFrameLength();
    var s' := Next(c, s, PluginRefuses);
    assert Up(s') == s.up + s.answerOut + s.guestOut;
    assert Down(s') == s'.pluginOut;
    assert Refused(s');
  }

  /** An error frame announces more bytes than it has, so it never completes a buffer. */
  lemma NeverCompletesError(buffer: bytes, rest: bytes)
    requires Complete(buffer)
    ensures buffer + rest != ErrorFrame()
  {
    ErrorFrameLength();
    var all := buffer + rest;
    assert all[..LENGTH_BYTES] == buffer[..LENGTH_BYTES];
    assert |all| == LENGTH_BYTES ==> all[..LENGTH_BYTES] == all;
  }

  lemma CompleteMeansReply(c: Config, s: State)
    requires Inv(c, s)
    requires s.chain.Receiving? && Complete(s.chainIn)
    ensures s.guest.Waiting? && ReplyOnWire(s)
    ensures s.down + s.pluginOut == [] && s.chainIn[LENGTH_BYTES..] == Reply(s)
  {
    var rest := s.down + s.pluginOut;
    assert Down(s) == s.chainIn + rest;
    assert Down(s) != [];
    NeverCompletesError(s.chainIn, rest);
    assert ReplyOnWire(s);
    assert Down(s) == Frame(Reply(s)) + [];
    FirstFrame(s.chainIn, rest, Reply(s), []);
  }

  lemma ChainStep(c: Config, s: State, a: Action)
    requires Inv(c, s) && Enabled(c, s, a)
    requires a.ChainStarts? || a.ChainDies?
    ensures Inv(c, Next(c, s, a))
  {
    var s' := Next(c, s, a);
    assert Up(s') == Up(s) && Down(s') == Down(s);
  }

  lemma MailboxStep(c: Config, s: State, a: Action)
    requires Inv(c, s) && Enabled(c, s, a)
    requires a.ChainCompletes? || a.ChainStores? || a.ChainFlags?
    ensures Inv(c, Next(c, s, a))
  {
    var s' := Next(c, s, a);
    assert Up(s') == Up(s);
    if a.ChainCompletes? {
      CompleteMeansReply(c, s);
      assert Down(s') == s.down + s.pluginOut;
      assert ReplyInChain(s');
    } else {
      assert s.guest.Waiting? && ReplyInChain(s);
      assert Down(s') == Down(s);
      assert if a.ChainStores? then ReplyInChain(s') else ReplyInSlot(s');
    }
  }

  /** Every orderly step of every actor keeps the invariant. */
  lemma StepKeepsInv(c: Config, s: State, a: Action)
    requires ValidConfig(c) && Inv(c, s) && Enabled(c, s, a) && Orderly(s, a)
    ensures Inv(c, Next(c, s, a))
  {
    if MovesBytes(a) {
      MoveStep(c, s, a);
    } else if a.PluginHandles? {
      if s.plugin.Awaiting? {
        AnswerHandled(c, s, a);
      } else {
        PluginServes(c, s, a);
      }
    } else if a.PluginRefuses? {
      PluginFails(c, s);
    } else if a.ChainStarts? || a.ChainDies? {
      ChainStep(c, s, a);
    } else if a.ChainCompletes? || a.ChainStores? || a.ChainFlags? {
      MailboxStep(c, s, a);
    } else if a.PluginStops? {
      assert Up(Next(c, s, a)) == Up(s) && Down(Next(c, s, a)) == Down(s);
    } else if a.GuestRequests? || a.GuestCloses? {
      GuestBegins(c, s, a);
    } else {
      GuestReads(c, s, a);
    }
  }

  // ----- Whole runs -----

  ghost function After(c: Config, run: seq<Action>): State {
    if run == [] then Initial(c) else Next(c, After(c, run[..|run| - 1]), run[|run| - 1])
  }

  ghost predicate ValidRun(c: Config, run: seq<Action>) {
    run != [] ==> ValidRun(c, run[..|run| - 1]) && Enabled(c, After(c, run[..|run| - 1]), run[|run| - 1])
  }

  /** In no step of the run does a byte of the guest enter while some of the answer is still to be sent. */
  ghost predicate OrderlyRun(c: Config, run: seq<Action>) {
    run != [] ==> OrderlyRun(c, run[..|run| - 1]) && Orderly(After(c, run[..|run| - 1]), run[|run| - 1])
  }

  lemma {:induction false} RunKeepsInv(c: Config, run: seq<Action>)
    requires ValidConfig(c) && ValidRun(c, run) && OrderlyRun(c, run)
    ensures Inv(c, After(c, run))
  {
    if run == [] {
      InitialInv(c);
    } else {
      var before := run[..|run| - 1];
      RunKeepsInv(c, before);
      StepKeepsInv(c, After(c, before), run[|run| - 1]);
    }
  }

  /** The payloads the guest asked for, in order. */
  ghost function Issued(run: seq<Action>): seq<bytes> {
    if run == [] then []
    else
      Issued(run[..|run| - 1]) + match run[|run| - 1] { case GuestRequests(p) => [p] case _ => [] }
  }

  /** The plugin answers a request; it does not answer the answer to its own, nor the end message. */
  predicate Answers(c: Config, s: State, a: Action) {
    a.PluginHandles? && s.plugin.Serving? && |s.pluginIn| >= LENGTH_BYTES && s.pluginIn[LENGTH_BYTES..] != c.end
  }

  /** The replies the plugin gave, in order. */
  ghost function Given(c: Config, run: seq<Action>): seq<bytes> {
    if run == [] then []
    else
      var before, a := run[..|run| - 1], run[|run| - 1];
      Given(c, before) + if Answers(c, After(c, before), a) then [a.reply] else []
  }

  function Replies(exchanges: seq<Exchange>): seq<bytes> {
    seq(|exchanges|, i requires 0 <= i < |exchanges| => exchanges[i].reply)
  }

  lemma RepliesStep(c: Config, s: State, a: Action)
    requires Enabled(c, s, a)
    ensures Replies(Next(c, s, a).served) == Replies(s.served) + if Answers(c, s, a) then [a.reply] else []
  {
    if Answers(c, s, a) {
      assert Next(c, s, a).served == s.served + [Exchange(s.pluginIn[LENGTH_BYTES..], a.reply)];
    } else {
      ServedFrame(c, s, a);
    }
  }

  lemma ServedFrame(c: Config, s: State, a: Action)
    requires Enabled(c, s, a) && !Answers(c, s, a)
    ensures Next(c, s, a).served == s.served
  {
  }

  /** In every run the plugin's log holds the replies it gave. */
  lemma {:induction false} RepliesAreGiven(c: Config, run: seq<Action>)
    requires ValidRun(c, run)
    ensures Replies(After(c, run).served) == Given(c, run)
  {
    if run != [] {
      RepliesAreGiven(c, run[..|run| - 1]);
      RepliesStep(c, After(c, run[..|run| - 1]), run[|run| - 1]);
    }
  }

  function Requests(exchanges: seq<Exchange>): seq<bytes> {
    seq(|exchanges|, i requires 0 <= i < |exchanges| => exchanges[i].request)
  }

  predicate Outstanding(s: State) {
    s.guest.Sending? || s.guest.Waiting? || s.guest.Woken? || s.guest.Holding? || s.guest.Cleared?
  }

  function Pending(s: State): seq<bytes> {
    if Outstanding(s) then [s.request] else []
  }

  /** Only starting a request and taking its reply change what the guest has asked or got. */
  lemma GuestLogFrame(c: Config, s: State, a: Action)
    requires Enabled(c, s, a) && !a.GuestTakes? && !a.GuestRequests?
    ensures Next(c, s, a).got == s.got && Next(c, s, a).request == s.request
    ensures Outstanding(Next(c, s, a)) == Outstanding(s)
  {
    OutstandingFrame(c, s, a);
  }

  lemma OutstandingFrame(c: Config, s: State, a: Action)
    requires Enabled(c, s, a) && !a.GuestTakes? && !a.GuestRequests?
    ensures Outstanding(Next(c, s, a)) == Outstanding(s)
  {
  }

  lemma IssuedStep(c: Config, s: State, a: Action)
    requires Enabled(c, s, a)
    ensures var s' := Next(c, s, a);
            Requests(s'.got) + Pending(s')
            == Requests(s.got) + Pending(s) + if a.GuestRequests? then [a.payload] else []
  {
    if a.GuestTakes? {
      RequestsSnoc(s.got, s.request, s.slot);
    } else if !a.GuestRequests? {
      GuestLogFrame(c, s, a);
    }
  }

  lemma RequestsSnoc(exchanges: seq<Exchange>, request: bytes, reply: bytes)
    ensures Requests(exchanges + [Exchange(request, reply)]) == Requests(exchanges) + [request]
  {
  }

  lemma {:induction false} IssuedInOrder(c: Config, run: seq<Action>)
    requires ValidRun(c, run)
    ensures Issued(run) == Requests(After(c, run).got) + Pending(After(c, run))
  {
    if run != [] {
      IssuedInOrder(c, run[..|run| - 1]);
      IssuedStep(c, After(c, run[..|run| - 1]), run[|run| - 1]);
    }
  }

  lemma InvReplies(c: Config, s: State)
    requires Inv(c, s)
    ensures s.got <= s.served && |s.served| <= |s.got| + 1
    ensures Requests(s.served) <= Requests(s.got) + Pending(s)
  {
    if |s.served| == |s.got| + 1 {
      assert Served(s);
      assert Requests(s.served) == Requests(s.got) + [s.request];
    } else {
      assert s.served == s.got;
    }
  }

  /**
   Each reply is consumed once, by the request that caused it: what the guest has got is
   what the plugin has served, in the order asked, short of at most the current exchange.
   */
  lemma RepliesMatchRequests(c: Config, run: seq<Action>)
    requires ValidConfig(c) && ValidRun(c, run) && OrderlyRun(c, run)
    ensures var s := After(c, run);
            && s.got <= s.served && |s.served| <= |s.got| + 1
            && Requests(s.served) <= Issued(run)
            && |Issued(run)| <= |s.got| + 1
            && Replies(s.served) == Given(c, run)
  {
    RepliesAreGiven(c, run);
    RunKeepsInv(c, run);
    IssuedInOrder(c, run);
    InvReplies(c, After(c, run));
  }

  /** A message is stored only into a mailbox whose previous message has been taken. */
  lemma NothingUnreadIsOverwritten(c: Config, run: seq<Action>)
    requires ValidConfig(c) && ValidRun(c, run) && OrderlyRun(c, run)
    requires Enabled(c, After(c, run), ChainStores)
    ensures var s := After(c, run);
            && !s.flag && s.guest.Waiting?
            && s.served == s.got + [Exchange(s.request, s.chain.message)]
  {
    RunKeepsInv(c, run);
    InvStoring(c, After(c, run));
  }

  lemma InvStoring(c: Config, s: State)
    requires Inv(c, s) && s.chain.Storing?
    ensures !s.flag && s.guest.Waiting? && s.served == s.got + [Exchange(s.request, s.chain.message)]
  {
    assert ReplyInChain(s);
    assert s.served == s.served[..|s.got|] + [s.served[|s.got|]];
  }

  /** At most one message on the wires once the answer is read, in one direction only, and whole. */
  ghost predicate OneMessage(c: Config, s: State) {
    && OneDirection(s)
    && (s.welcomed && Up(s) != [] ==> Up(s) == Frame(s.request) || Up(s) == Frame(c.end))
    && (Down(s) != [] ==> Down(s) == ErrorFrame() || (|s.served| > 0 && Down(s) == Frame(s.served[|s.served| - 1].reply)))
  }

  predicate OneDirection(s: State) {
    Down(s) != [] ==> Up(s) == []
  }

  lemma InvOneDirection(c: Config, s: State)
    requires Inv(c, s)
    ensures OneDirection(s)
  {
  }

  lemma InvUpWhole(c: Config, s: State)
    requires Inv(c, s) && s.welcomed && Up(s) != []
    ensures Up(s) == Frame(s.request) || Up(s) == Frame(c.end)
  {
  }

  lemma InvDownWhole(c: Config, s: State)
    requires Inv(c, s) && Down(s) != []
    ensures Down(s) == ErrorFrame() || (|s.served| > 0 && Down(s) == Frame(s.served[|s.served| - 1].reply))
  {
    assert s.guest.Waiting? && (ReplyOnWire(s) || Refused(s));
  }

  lemma InvOneMessage(c: Config, s: State)
    requires Inv(c, s)
    ensures OneMessage(c, s)
  {
    InvOneDirection(c, s);
    if s.welcomed && Up(s) != [] {
      InvUpWhole(c, s);
    }
    if Down(s) != [] {
      InvDownWhole(c, s);
    }
  }

  lemma OneMessageInFlight(c: Config, run: seq<Action>)
    requires ValidConfig(c) && ValidRun(c, run) && OrderlyRun(c, run)
    ensures OneMessage(c, After(c, run))
  {
    RunKeepsInv(c, run);
    InvOneMessage(c, After(c, run));
  }

  // ----- Progress -----

  /** No receiver has read past its message, and only a plugin that replies or has stopped has bytes to send. */
  predicate BuffersFit(s: State) {
    && |s.pluginIn| <= Wanted(s.pluginIn) && |s.chainIn| <= Wanted(s.chainIn)
    && (s.pluginOut != [] ==> s.plugin.Replying? || s.plugin.Stopped?)
  }

  lemma StillFits(buffer: bytes, more: bytes)
    requires |buffer| + |more| <= Wanted(buffer)
    ensures |buffer + more| <= Wanted(buffer + more)
  {
    if |buffer| >= LENGTH_BYTES {
      assert (buffer + more)[..LENGTH_BYTES] == buffer[..LENGTH_BYTES];
    }
  }

  lemma StepKeepsFit(c: Config, s: State, a: Action)
    requires BuffersFit(s) && Enabled(c, s, a)
    ensures BuffersFit(Next(c, s, a))
  {
    if a.PluginReceives? {
      StillFits(s.pluginIn, s.up[..a.count]);
    } else if a.ChainReceives? {
      StillFits(s.chainIn, s.down[..a.count]);
    }
  }

  lemma {:induction false} RunKeepsFit(c: Config, run: seq<Action>)
    requires ValidRun(c, run)
    ensures BuffersFit(After(c, run))
  {
    if run != [] {
      RunKeepsFit(c, run[..|run| - 1]);
      StepKeepsFit(c, After(c, run[..|run| - 1]), run[|run| - 1]);
    }
  }

  /** The step moves a byte, handles a message or moves the mailbox or its reader on. */
  predicate Productive(a: Action) {
    match a
    case AnswerSends(n) => n > 0
    case GuestSends(n) => n > 0
    case PluginReceives(n) => n > 0
    case PluginSends(n) => n > 0
    case ChainReceives(n) => n > 0
    case GuestWakes => true
    case GuestLocks => true
    case GuestClears => true
    case GuestTakes => true
    case PluginHandles(_) => true
    case ChainStarts => true
    case ChainCompletes => true
    case ChainStores => true
    case ChainFlags => true
    case _ => false
  }

  /** A productive step; a message, if it handles one, is given that reply. */
  ghost predicate Proceeds(c: Config, s: State, a: Action, reply: bytes) {
    Enabled(c, s, a) && Productive(a) && Orderly(s, a) && (a.PluginHandles? ==> a.reply == reply)
  }

  ghost predicate CanProceed(c: Config, s: State, reply: bytes) {
    exists a :: Proceeds(c, s, a, reply)
  }

  lemma RequestProceeds(c: Config, s: State, reply: bytes)
    requires ValidConfig(c) && BuffersFit(s) && s.answerOut == [] && s.guestOut == [] && (s.plugin.Awaiting? || s.plugin.Serving?)
    requires Requesting(c, s) && Up(s) == Behind(c, s, Frame(s.request)) && Sendable(reply)
    ensures CanProceed(c, s, reply)
  {
    if Complete(s.pluginIn) {
      assert Proceeds(c, s, PluginHandles(reply), reply);
    } else {
      assert Up(s) == s.pluginIn + s.up;
      assert Frame(s.request) + [] == Frame(s.request);
      if s.welcomed {
        CanReadOn(s.pluginIn, s.up, s.request, []);
      } else {
        CanReadOn(s.pluginIn, s.up, c.answer, Frame(s.request));
      }
      assert Proceeds(c, s, PluginReceives(1), reply);
    }
  }

  lemma ReplyProceeds(c: Config, s: State, reply: bytes)
    requires BuffersFit(s) && s.answerOut == [] && (s.chain.NotStarted? || s.chain.Receiving?) && !s.plugin.Stopped?
    requires |s.served| == |s.got| + 1 && Sendable(Reply(s)) && Down(s) == Frame(Reply(s))
    ensures CanProceed(c, s, reply)
  {
    if s.chain.NotStarted? {
      assert Proceeds(c, s, ChainStarts, reply);
    } else if s.pluginOut != [] {
      assert Proceeds(c, s, PluginSends(1), reply);
    } else if Complete(s.chainIn) {
      assert Proceeds(c, s, ChainCompletes, reply);
    } else {
      assert Down(s) == s.chainIn + s.down && Frame(Reply(s)) + [] == Frame(Reply(s));
      CanReadOn(s.chainIn, s.down, Reply(s), []);
      assert Proceeds(c, s, ChainReceives(1), reply);
    }
  }

  lemma WaitingProceeds(c: Config, s: State, reply: bytes)
    requires ValidConfig(c) && Inv(c, s) && BuffersFit(s) && s.guest.Waiting? && s.answerOut == []
    requires !s.plugin.Stopped? && !s.chain.Dead? && Sendable(reply)
    ensures CanProceed(c, s, reply)
  {
    if RequestOut(c, s, s.request) {
      RequestProceeds(c, s, reply);
    } else if ReplyOnWire(s) {
      ReplyProceeds(c, s, reply);
    } else if ReplyInChain(s) {
      var a := if s.chain.Storing? then ChainStores else ChainFlags;
      assert Proceeds(c, s, a, reply);
    } else if ReplyInSlot(s) {
      assert Proceeds(c, s, GuestWakes, reply);
    } else {
      assert Refused(s) && Proceeds(c, s, PluginSends(1), reply);
    }
  }

  /**
   No lost wake-up: in every orderly run, as long as neither the plugin nor the receive
   chain has given up, a guest with a request outstanding has some actor able to go on,
   and the plugin, if it is to answer, may answer anything.
   */
  lemma OutstandingProceeds(c: Config, run: seq<Action>, reply: bytes)
    requires ValidConfig(c) && ValidRun(c, run) && OrderlyRun(c, run) && Sendable(reply)
    requires var s := After(c, run); Outstanding(s) && !s.plugin.Stopped? && !s.chain.Dead?
    ensures CanProceed(c, After(c, run), reply)
  {
    RunKeepsInv(c, run);
    RunKeepsFit(c, run);
    var s := After(c, run);
    if s.answerOut != [] {
      assert Proceeds(c, s, AnswerSends(1), reply);
    } else if s.guest.Waiting? {
      WaitingProceeds(c, s, reply);
    } else {
      var a := match s.guest { case Sending => GuestSends(1) case Woken => GuestLocks case Holding => GuestClears case _ => GuestTakes };
      assert Proceeds(c, s, a, reply);
    }
  }

  /** How far a request still has to go, and within that the bytes, or the steps of the mailbox, still to move. */
  function Phase(s: State): nat {
    if |s.served| <= |s.got| then (if s.welcomed then 4 else 5)
    else if s.chain.Storing? || s.chain.Flagging? then 2
    else if s.flag || s.guest.Cleared? then 1
    else 3
  }

  function Effort(s: State): nat {
    var starting := if s.chain.NotStarted? then 1 else 0;
    match Phase(s)
    case 1 => starting + match s.guest { case Waiting => 3 case Woken => 2 case Holding => 1 case _ => 0 }
    case 2 => if s.chain.Storing? then 1 else 0
    case 3 => starting + 2 * |s.pluginOut| + |s.down|
    case _ => starting + 2 * |s.answerOut| + 2 * |s.guestOut| + |s.up|
  }

  predicate Closer(s: State, s': State) {
    Phase(s') < Phase(s) || (Phase(s') == Phase(s) && Effort(s') < Effort(s))
  }

  /** What the phases mean for a request that has not been refused. */
  lemma PhaseIs(c: Config, s: State)
    requires Inv(c, s) && Outstanding(s) && !Refused(s)
    ensures Phase(s) >= 4 ==> (s.guest.Sending? || s.guest.Waiting?) && RequestOut(c, s, s.request)
    ensures Phase(s) == 3 ==> s.guest.Waiting? && ReplyOnWire(s)
    ensures Phase(s) == 2 ==> s.guest.Waiting? && ReplyInChain(s)
    ensures Phase(s) == 1 ==> ReplyInSlot(s)
  {
  }

  lemma ProceedsRequest(c: Config, s: State, a: Action)
    requires ValidConfig(c) && Inv(c, s) && Phase(s) >= 4 && (s.guest.Sending? || s.guest.Waiting?) && RequestOut(c, s, s.request)
    requires Enabled(c, s, a) && Productive(a)
    ensures Closer(s, Next(c, s, a))
  {
    if a.PluginHandles? && s.plugin.Serving? {
      CompleteMeansSent(c, s);
    }
    assert s.down == [] && s.pluginOut == [] && s.chainIn == [];
  }

  lemma ProceedsReply(c: Config, s: State, a: Action)
    requires Inv(c, s) && Phase(s) == 3 && s.guest.Waiting? && ReplyOnWire(s)
    requires Enabled(c, s, a) && Productive(a)
    ensures Closer(s, Next(c, s, a))
  {
    assert s.up == [] && s.answerOut == [] && s.guestOut == [] && s.pluginIn == [];
  }

  lemma ProceedsMailbox(c: Config, s: State, a: Action)
    requires Inv(c, s) && Outstanding(s)
    requires (Phase(s) == 2 && s.guest.Waiting? && ReplyInChain(s)) || (Phase(s) == 1 && ReplyInSlot(s))
    requires Enabled(c, s, a) && Productive(a) && !a.GuestTakes?
    ensures Closer(s, Next(c, s, a))
  {
    assert s.up == [] && s.answerOut == [] && s.guestOut == [] && s.pluginIn == [];
    assert s.down == [] && s.pluginOut == [] && s.chainIn == [];
  }

  /**
   Every productive step brings an outstanding request that was not refused closer to its
   reply, by a measure that cannot decrease for ever, or hands the reply to the guest.
   */
  lemma ProductiveStepsLead(c: Config, run: seq<Action>, a: Action)
    requires ValidConfig(c) && ValidRun(c, run) && OrderlyRun(c, run)
    requires var s := After(c, run); Outstanding(s) && !Refused(s) && Enabled(c, s, a) && Productive(a) && Orderly(s, a)
    ensures var s, s' := After(c, run), Next(c, After(c, run), a);
            if a.GuestTakes? then |s'.got| == |s.got| + 1 else Closer(s, s')
  {
    RunKeepsInv(c, run);
    var s := After(c, run);
    PhaseIs(c, s);
    if !a.GuestTakes? {
      if Phase(s) >= 4 {
        ProceedsRequest(c, s, a);
      } else if Phase(s) == 3 {
        ProceedsReply(c, s, a);
      } else {
        ProceedsMailbox(c, s, a);
      }
    }
  }

  /** Neither the plugin nor the receive chain has given up, and no request was refused. */
  predicate Live(s: State) {
    !s.plugin.Stopped? && s.plugin != Replying(true) && !s.chain.Dead?
  }

  /** The reply the outstanding request has been given, or else will be if the plugin answers `reply`. */
  function Due(s: State, reply: bytes): bytes {
    if |s.served| == |s.got| + 1 then Reply(s) else reply
  }

  /** The step hands the due reply to the guest, or leaves the request outstanding with the same reply due. */
  ghost predicate Onward(s: State, s': State, taken: bool, reply: bytes) {
    && Live(s')
    && if taken then s'.guest.Idle? && s'.got == s.got + [Exchange(s.request, Due(s, reply))]
       else Outstanding(s') && s'.got == s.got && s'.request == s.request && Due(s', reply) == Due(s, reply)
  }

  lemma HandlesOnward(c: Config, s: State, a: Action, reply: bytes)
    requires ValidConfig(c) && Inv(c, s) && Live(s) && Outstanding(s) && Proceeds(c, s, a, reply) && a.PluginHandles?
    ensures Onward(s, Next(c, s, a), false, reply)
  {
    GuestLogFrame(c, s, a);
    if s.plugin.Serving? {
      CompleteMeansSent(c, s);
    }
  }

  /** Only giving up or refusing ends it, as long as the end message is not read. */
  lemma StaysLive(c: Config, s: State, a: Action)
    requires Live(s) && Enabled(c, s, a) && Productive(a) && !a.PluginHandles?
    ensures Live(Next(c, s, a))
  {
  }

  lemma TakesOnward(c: Config, s: State, reply: bytes)
    requires Inv(c, s) && Live(s) && s.guest.Cleared?
    ensures Onward(s, Next(c, s, GuestTakes), true, reply)
  {
  }

  lemma ProceedsOnward(c: Config, s: State, a: Action, reply: bytes)
    requires ValidConfig(c) && Inv(c, s) && Live(s) && Outstanding(s) && Proceeds(c, s, a, reply)
    ensures Onward(s, Next(c, s, a), a.GuestTakes?, reply)
  {
    if a.PluginHandles? {
      HandlesOnward(c, s, a, reply);
    } else if a.GuestTakes? {
      TakesOnward(c, s, reply);
    } else {
      StaysLive(c, s, a);
      GuestLogFrame(c, s, a);
      ServedFrame(c, s, a);
    }
  }

  ghost predicate GoodRun(c: Config, run: seq<Action>) {
    ValidRun(c, run) && OrderlyRun(c, run)
  }

  lemma OneMore(c: Config, run: seq<Action>, a: Action)
    requires GoodRun(c, run) && Enabled(c, After(c, run), a) && Orderly(After(c, run), a)
    ensures GoodRun(c, run + [a]) && After(c, run + [a]) == Next(c, After(c, run), a)
  {
    assert (run + [a])[..|run|] == run;
  }

  /** Every outstanding request that was not refused can be brought to its reply. */
  lemma {:induction false} CanBeAnswered(c: Config, run: seq<Action>, reply: bytes) returns (later: seq<Action>)
    requires ValidConfig(c) && GoodRun(c, run) && Sendable(reply)
    requires var s := After(c, run); Live(s) && Outstanding(s)
    ensures GoodRun(c, later) && Live(After(c, later)) && After(c, later).guest.Idle?
    ensures After(c, later).got == After(c, run).got + [Exchange(After(c, run).request, Due(After(c, run), reply))]
    decreases Phase(After(c, run)), Effort(After(c, run))
  {
    var s := After(c, run);
    OutstandingProceeds(c, run, reply);
    var a :| Proceeds(c, s, a, reply);
    RunKeepsInv(c, run);
    ProceedsOnward(c, s, a, reply);
    OneMore(c, run, a);
    later := run + [a];
    if !a.GuestTakes? {
      ProductiveStepsLead(c, run, a);
      later := CanBeAnswered(c, run + [a], reply);
    }
  }

  /** A guest that is idle may ask for anything but the end message. */
  lemma CanAsk(c: Config, run: seq<Action>, request: bytes)
    requires ValidConfig(c) && GoodRun(c, run) && Live(After(c, run)) && After(c, run).guest.Idle?
    requires Sendable(request) && request != c.end
    ensures var s, s' := After(c, run), After(c, run + [GuestRequests(request)]);
            && GoodRun(c, run + [GuestRequests(request)]) && Live(s') && Outstanding(s')
            && s'.got == s.got && s'.request == request && |s'.served| == |s'.got|
  {
    RunKeepsInv(c, run);
    OneMore(c, run, GuestRequests(request));
  }

  ghost predicate Possible(c: Config, x: Exchange) {
    Sendable(x.request) && x.request != c.end && Sendable(x.reply)
  }

  ghost predicate Happens(c: Config, run: seq<Action>, exchanges: seq<Exchange>) {
    GoodRun(c, run) && Live(After(c, run)) && After(c, run).guest.Idle? && After(c, run).got == exchanges
  }

  lemma OneMoreHappens(c: Config, run: seq<Action>, done: seq<Exchange>, x: Exchange) returns (later: seq<Action>)
    requires ValidConfig(c) && Happens(c, run, done) && Possible(c, x)
    ensures Happens(c, later, done + [x])
  {
    CanAsk(c, run, x.request);
    later := CanBeAnswered(c, run + [GuestRequests(x.request)], x.reply);
  }

  /**
   Whatever the guest wants to ask and the plugin to answer, any number of times, some
   orderly run does it, and the guest has got exactly those exchanges.
   */
  lemma {:induction false} AnyExchangesHappen(c: Config, exchanges: seq<Exchange>)
    requires ValidConfig(c) && forall i | 0 <= i < |exchanges| :: Possible(c, exchanges[i])
    ensures exists run :: Happens(c, run, exchanges)
  {
    if exchanges == [] {
      assert Happens(c, [], []);
    } else {
      var n := |exchanges| - 1;
      var x := exchanges[n];
      AnyExchangesHappen(c, exchanges[..n]);
      var run :| Happens(c, run, exchanges[..n]);
      var later := OneMoreHappens(c, run, exchanges[..n], x);
      assert exchanges == exchanges[..n] + [x];
      assert Happens(c, later, exchanges);
    }
  }

  /** A refusal is final: the error frame never completes at the receive chain. */
  lemma RefusedStays(c: Config, s: State, a: Action)
    requires Refused(s) && s.guest.Waiting? && Enabled(c, s, a)
    ensures Refused(Next(c, s, a)) && Next(c, s, a).guest.Waiting? && Next(c, s, a).got == s.got
  {
    assert s.up == [] && s.answerOut == [] && s.guestOut == [] && s.pluginIn == [];
    if a.ChainReceives? {
      ChainTakes(s.chainIn, s.down, s.pluginOut, a.count);
    } else if a.PluginSends? {
      if a.count < |s.pluginOut| {
        PluginMoves(s.chainIn, s.down, s.pluginOut, a.count);
      } else {
        PluginMovesAll(s.chainIn, s.down, s.pluginOut);
      }
    } else if a.ChainCompletes? {
      assert Down(s) == s.chainIn + (s.down + s.pluginOut);
      NeverCompletesError(s.chainIn, s.down + s.pluginOut);
    }
  }

  /** Once its request is refused the guest waits for ever, whatever anyone does. */
  lemma {:induction false} RefusedIsNeverAnswered(c: Config, run: seq<Action>, later: seq<Action>)
    requires run <= later && ValidRun(c, later)
    requires Refused(After(c, run)) && After(c, run).guest.Waiting?
    ensures After(c, later).guest.Waiting? && After(c, later).got == After(c, run).got && Refused(After(c, later))
    decreases |later|
  {
    if |run| < |later| {
      var before := later[..|later| - 1];
      RefusedIsNeverAnswered(c, run, before);
      RefusedStays(c, After(c, before), later[|later| - 1]);
    } else {
      assert run == later;
    }
  }

  // ----- What the plugin reads first, in every run -----

  /** The bytes that have entered the stream to the plugin, in the order of the sends. */
  ghost function Entered(c: Config, run: seq<Action>): bytes {
    if run == [] then []
    else
      var before := run[..|run| - 1];
      Entered(c, before) + Sent(After(c, before), run[|run| - 1])
  }

  function Sent(s: State, a: Action): bytes {
    match a
    case AnswerSends(n) => if n <= |s.answerOut| then s.answerOut[..n] else []
    case GuestSends(n) => if n < |s.guestOut| then s.guestOut[..n] else s.guestOut
    case _ => []
  }

  /** A plugin that still waits for the answer has all of them, received or not. */
  lemma {:induction false} AwaitingHasAll(c: Config, run: seq<Action>)
    requires ValidRun(c, run) && After(c, run).plugin.Awaiting?
    ensures After(c, run).pluginIn + After(c, run).up == Entered(c, run)
  {
    if run != [] {
      var before := run[..|run| - 1];
      AwaitingBefore(c, After(c, before), run[|run| - 1]);
      AwaitingHasAll(c, before);
      AwaitingStep(c, After(c, before), run[|run| - 1]);
    }
  }

  lemma AwaitingBefore(c: Config, s: State, a: Action)
    requires Enabled(c, s, a) && Next(c, s, a).plugin.Awaiting?
    ensures s.plugin.Awaiting? && !a.PluginHandles? && !a.PluginRefuses?
  {
  }

  lemma AwaitingStep(c: Config, s: State, a: Action)
    requires Enabled(c, s, a) && !a.PluginHandles? && !a.PluginRefuses?
    ensures Next(c, s, a).pluginIn + Next(c, s, a).up == s.pluginIn + s.up + Sent(s, a)
  {
    assert s.pluginIn + s.up + [] == s.pluginIn + s.up;
    if a.PluginReceives? {
      ReceivesKeep(c, s, a);
    } else if a.AnswerSends? || a.GuestSends? {
      SendsExtend(c, s, a);
      assert s.pluginIn + (s.up + Sent(s, a)) == s.pluginIn + s.up + Sent(s, a);
    } else {
      OthersKeepStream(c, s, a);
    }
  }

  lemma ReceivesKeep(c: Config, s: State, a: Action)
    requires Enabled(c, s, a) && a.PluginReceives?
    ensures Next(c, s, a).pluginIn + Next(c, s, a).up == s.pluginIn + s.up && Sent(s, a) == []
  {
    assert (s.pluginIn + s.up[..a.count]) + s.up[a.count..] == s.pluginIn + s.up;
  }

  lemma SendsExtend(c: Config, s: State, a: Action)
    requires Enabled(c, s, a) && (a.AnswerSends? || a.GuestSends?)
    ensures Next(c, s, a).pluginIn == s.pluginIn && Next(c, s, a).up == s.up + Sent(s, a)
  {
  }

  lemma OthersKeepStream(c: Config, s: State, a: Action)
    requires !a.AnswerSends? && !a.GuestSends? && !a.PluginReceives? && !a.PluginHandles? && !a.PluginRefuses?
    ensures Next(c, s, a).pluginIn == s.pluginIn && Next(c, s, a).up == s.up && Sent(s, a) == []
  {
  }

  /**
   In every run, orderly or not, the message that completes at a plugin waiting for the
   answer is the answer if and only if the bytes that entered the stream begin with it.
   */
  lemma AnswerReadIff(c: Config, run: seq<Action>)
    requires ValidConfig(c) && ValidRun(c, run)
    requires After(c, run).plugin.Awaiting? && Complete(After(c, run).pluginIn)
    ensures After(c, run).pluginIn[LENGTH_BYTES..] == c.answer <==> Frame(c.answer) <= Entered(c, run)
  {
    AwaitingHasAll(c, run);
    FirstReadIff(After(c, run).pluginIn, After(c, run).up, c.answer);
  }

  /** A complete buffer at the front of a stream holds the payload exactly when the stream begins with its frame. */
  lemma FirstReadIff(buffer: bytes, rest: bytes, payload: bytes)
    requires Sendable(payload) && Complete(buffer)
    ensures buffer[LENGTH_BYTES..] == payload <==> Frame(payload) <= buffer + rest
  {
    var all := buffer + rest;
    if Frame(payload) <= all {
      var tail := all[|Frame(payload)|..];
      assert all == Frame(payload) + tail;
      FirstFrame(buffer, rest, payload, tail);
    }
    if buffer[LENGTH_BYTES..] == payload {
      FromLeRoundTrip(buffer[..LENGTH_BYTES]);
      assert buffer == buffer[..LENGTH_BYTES] + payload;
      assert Frame(payload) <= all;
    }
  }

  /** In an orderly run the answer enters first: what has entered is a beginning of it, or begins with it. */
  lemma {:induction false} OrderlyEntersAnswerFirst(c: Config, run: seq<Action>)
    requires ValidRun(c, run) && OrderlyRun(c, run)
    ensures var s := After(c, run);
            if s.answerOut != [] then Entered(c, run) + s.answerOut == Frame(c.answer) else Frame(c.answer) <= Entered(c, run)
  {
    if run == [] {
      assert [] + Frame(c.answer) == Frame(c.answer);
    } else {
      var before, a := run[..|run| - 1], run[|run| - 1];
      OrderlyEntersAnswerFirst(c, before);
      AnswerOutStep(c, After(c, before), a);
      EnteredStep(c.answer, Entered(c, before), After(c, before), a, After(c, run));
    }
  }

  lemma AnswerOutStep(c: Config, s: State, a: Action)
    ensures Next(c, s, a).answerOut == if a.AnswerSends? && a.count <= |s.answerOut| then s.answerOut[a.count..] else s.answerOut
  {
  }

  lemma EnteredStep(answer: bytes, entered: bytes, s: State, a: Action, s': State)
    requires Orderly(s, a)
    requires s'.answerOut == if a.AnswerSends? && a.count <= |s.answerOut| then s.answerOut[a.count..] else s.answerOut
    requires if s.answerOut != [] then entered + s.answerOut == Frame(answer) else Frame(answer) <= entered
    ensures if s'.answerOut != [] then entered + Sent(s, a) + s'.answerOut == Frame(answer) else Frame(answer) <= entered + Sent(s, a)
  {
    if a.AnswerSends? && a.count <= |s.answerOut| {
      assert s.answerOut == s.answerOut[..a.count] + s.answerOut[a.count..];
      assert entered + s.answerOut[..a.count] + s.answerOut[a.count..] == entered + s.answerOut;
      if s.answerOut != [] && s'.answerOut == [] {
        assert entered + Sent(s, a) == Frame(answer);
      }
    } else if s.answerOut != [] {
      assert entered + Sent(s, a) == entered;
    }
  }

  /**
   Order is needed unless bytes happen to agree: if in an orderly run the guest is about
   to send ahead of the rest of the answer, then whatever happens afterwards the stream
   begins with the answer only if the guest's next byte is the answer's next byte.
   */
  lemma EarlyByteMustAgree(c: Config, run: seq<Action>, n: nat, later: seq<Action>)
    requires ValidRun(c, run) && OrderlyRun(c, run)
    requires var s := After(c, run); s.answerOut != [] && s.guestOut != [] && 0 < n
    requires run + [GuestSends(n)] <= later && Frame(c.answer) <= Entered(c, later)
    ensures After(c, run).guestOut[0] == After(c, run).answerOut[0]
  {
    var s := After(c, run);
    var early := run + [GuestSends(n)];
    assert early[..|run|] == run;
    OrderlyEntersAnswerFirst(c, run);
    EnteredGrows(c, early, later);
    var k := |Entered(c, run)|;
    assert Entered(c, early)[k] == s.guestOut[0];
    assert Frame(c.answer)[k] == (Entered(c, run) + s.answerOut)[k] == s.answerOut[0];
    assert Entered(c, later)[k] == Entered(c, early)[k];
  }

  lemma {:induction false} EnteredGrows(c: Config, run: seq<Action>, later: seq<Action>)
    requires run <= later
    ensures Entered(c, run) <= Entered(c, later)
    decreases |later|
  {
    if |run| < |later| {
      EnteredGrows(c, run, later[..|later| - 1]);
    } else {
      assert run == later;
    }
  }

  /** The shortest run in which a guest's request, any request, is what the plugin reads first. */
  ghost function EarlyRun(request: bytes): seq<Action> {
    [GuestRequests(request), GuestSends(|Frame(request)|), PluginReceives(LENGTH_BYTES), PluginReceives(|request|)]
  }

  /** For every request the run is possible, and the plugin that waits for the answer holds the request, complete. */
  lemma EarlyGuestIsMisread(c: Config, request: bytes)
    requires ValidConfig(c) && Sendable(request) && request != c.end
    ensures ValidRun(c, EarlyRun(request))
    ensures var s := After(c, EarlyRun(request));
            s.plugin.Awaiting? && Complete(s.pluginIn) && s.pluginIn[LENGTH_BYTES..] == request
  {
    EarlySends(c, request);
    var first: seq<Action> := [GuestRequests(request), GuestSends(|Frame(request)|)];
    EarlyReads(c, request, After(c, first));
    Extend(c, first, PluginReceives(LENGTH_BYTES));
    var second := first + [PluginReceives(LENGTH_BYTES)];
    Extend(c, second, PluginReceives(|request|));
    assert second + [PluginReceives(|request|)] == EarlyRun(request);
  }

  /** A waiting plugin reads a frame that is alone in the stream: the size, then the rest. */
  lemma EarlyReads(c: Config, request: bytes, s: State)
    requires Sendable(request) && s.plugin.Awaiting? && s.pluginIn == [] && s.up == Frame(request)
    ensures Enabled(c, s, PluginReceives(LENGTH_BYTES))
    ensures var s1 := Next(c, s, PluginReceives(LENGTH_BYTES));
            && Enabled(c, s1, PluginReceives(|request|))
            && var s2 := Next(c, s1, PluginReceives(|request|));
               s2.plugin.Awaiting? && Complete(s2.pluginIn) && s2.pluginIn[LENGTH_BYTES..] == request
  {
    var f := Frame(request);
    FrameLength(request);
    assert [] + f[..LENGTH_BYTES] == f[..LENGTH_BYTES];
    assert f[..LENGTH_BYTES][..LENGTH_BYTES] == f[..LENGTH_BYTES];
    assert f[LENGTH_BYTES..][..|request|] == request && f[..LENGTH_BYTES] + request == f;
  }

  lemma EarlySends(c: Config, request: bytes)
    requires Sendable(request) && request != c.end
    ensures var run: seq<Action> := [GuestRequests(request), GuestSends(|Frame(request)|)];
            && ValidRun(c, run)
            && After(c, run) == Initial(c).(guest := Waiting, request := request, up := Frame(request))
  {
    var f := Frame(request);
    var first: seq<Action> := [GuestRequests(request)];
    Extend(c, [], GuestRequests(request));
    assert [] + first == first;
    Extend(c, first, GuestSends(|f|));
    assert first + [GuestSends(|f|)] == [GuestRequests(request), GuestSends(|f|)];
    assert [] + f == f;
  }

  lemma Extend(c: Config, run: seq<Action>, a: Action)
    ensures After(c, run + [a]) == Next(c, After(c, run), a)
    ensures ValidRun(c, run + [a]) <==> ValidRun(c, run) && Enabled(c, After(c, run), a)
  {
    assert (run + [a])[..|run|] == run;
  }
}
